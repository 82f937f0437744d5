# Inventarium in Dafny

Inventarium is a crowd-sourced register of archival inventories for the
settlements of Ukraine. A volunteer fills in a draft. It carries the
settlement's current location, chosen from a cascade of region, district,
community, settlement type and name, plus coordinates, the archival signature
and a few numbers. A validation gate checks the draft, and a duplicate lookup
runs against the approved rows and the pending rows. If both pass, the draft
joins the pending rows. A moderator walks through the pending rows one at a
time, edits them in the same form and accepts or rejects each. The public
register lists approved rows twenty to a page.

This project models that core as pure Dafny functions over immutable data and
proves properties of it:

- `JsText`: the parts of JavaScript's text handling the pages rely on.
  - `parseInt` and `parseFloat` on decimal text, including JavaScript's
    white-space set.
  - `String` of an integer.
  - `toLowerCase` for the ASCII and the Cyrillic capitals.
  - `includes` and `join`.
- `JsValue`: field values as the pages hold them (text, integer, number
  literal, boolean, null), with JavaScript truthiness and `String`, and
  records as maps from field names to values.
- `Lookup`: the static region → district → community → settlements index and
  the option lists derived from it. This includes the insertion-ordered
  distinct settlement types and the per-type name lists.
- `Form`: the shared editable form, `components/EditableInventoryForm.tsx`.
  - Its change handler, including the derived case signature and the
    manual-entry toggle.
  - Its option-list effects.
  - The name filter and the coordinate auto-fill.
- `Cascade`: the add-inventory page's own clearing effects. They run
  together after a render, each reading that render's values.
- `Validation`: the add-inventory gate, checked against a fail-fast
  reference reading of its rule list.
- `Submission`: the lookup key, the numeric coercion and the submit
  decision.
- `Moderation`: the moderation queue.
  - Loading and navigation.
  - The prepared record and its parse helpers.
  - Accepting and rejecting.
- `Listing`: paging of the register, the location label and the map link.
- `Archives`: the archive directory's search.
- `Stats`: the contributor's rank, title and crown.
- `Sequences`: order-preserving selection, shared by the list filters.
- `SearchBar`: the search bar's filters.

The database is modelled as sequences of rows. A query's equality filter
compares the text of the stored value with the text of the queried one. Every
store call that can fail takes a boolean saying whether it succeeded. The
moderator's confirmation is a boolean too.

## Model

| member | source | states |
|---|---|---|
| `JsText.ParseIntJS` | pages/add_inventory.tsx:289-290 | `parseInt` gives a number exactly when a digit follows the leading white space and at most one sign; the number is the positional value of the longest run of digits there, negated after a minus sign |
| `JsText.DigitsValueFront` | pages/admin_approve.tsx:149-153 | digits are read in positional notation: the first of `k + 1` digits counts `10^k` times |
| `JsText.LeadingZeroIgnored` | pages/admin_approve.tsx:149-153 | a leading zero does not change the value read |
| `JsText.DigitsValueBelow` | pages/admin_approve.tsx:149-153 | `k` digits read as a number below `10^k` |
| `JsText.ParseIntSkipsSpace` | pages/admin_approve.tsx:151 | leading white space does not change what `parseInt` reads |
| `JsText.ParseIntReadsMinusAndZeros` | pages/admin_approve.tsx:151 | `parseInt("-07")` is -7 |
| `JsText.ParseIntStopsAtDot` | pages/admin_approve.tsx:151 | `parseInt("12.5")` is 12 |
| `JsText.ParseIntOfSpacedYear` | pages/add_inventory.tsx:289-290 | `parseInt(" 2020")` is 2020 |
| `JsText.ParseIntOfIntToString` | pages/admin_approve.tsx:149-153 | `parseInt` reads back what `String` wrote for any integer, whatever non-digit text follows it; exact for the model's unbounded integers, in JavaScript below 2^53 |
| `JsText.ParseFloatJS` | pages/add_inventory.tsx:376-377 | `parseFloat` gives a number exactly when, after white space and a sign, the text starts with a digit or with a dot and a digit; the number read is the sign followed by the longest prefix of the rest that is a decimal literal (digits, or a dot with digits on either side and at least one digit); NaN exactly when no prefix is one |
| `JsText.DecimalPrefix` | pages/admin_approve.tsx:155-159 | the length found is that of the longest prefix that is a decimal literal, and 0 exactly when no non-empty prefix is one |
| `JsText.ParseFloatStopsAtSecondDot` | pages/admin_approve.tsx:157 | `parseFloat("1.2.3")` reads `1.2` |
| `JsText.LowerKeepsIncludes` | pages/archives.tsx:25-31 | lower-casing both sides keeps a substring a substring |
| `Lookup.DistinctTypes` | components/EditableInventoryForm.tsx:74 | the offered types are duplicate-free, are exactly the types of the community's settlements, and come in order of first occurrence |
| `Lookup.DedupIsFirsts` | components/EditableInventoryForm.tsx:74 | building the set in insertion order gives the reference "distinct values by first occurrence" list |
| `Lookup.FirstsProperties` | pages/add_inventory.tsx:163 | the reference list has no duplicates, holds exactly the input's values and keeps their first-occurrence order |
| `Lookup.OfType` | components/EditableInventoryForm.tsx:257-258 | the filter by type keeps exactly the settlements of that type, each as often as in the list, in the list's order |
| `Lookup.TypesPartitionSettlements` | components/EditableInventoryForm.tsx:242-263 | every settlement is offered under its own type and no other, and the name lists of all offered types together are as long as the community's list |
| `Lookup.FindSettlement` | components/EditableInventoryForm.tsx:81-83 | `find` returns the first settlement with the selected type and name, or none when no settlement has both |
| `Form.HandleChange` | components/EditableInventoryForm.tsx:115-158 | the manual-entry toggle sets the mode and clears the location fields (on) or the coordinates (off); another checkbox stores its boolean; a text input stores its text, touches at most that field and the signature, and leaves the signature derived whenever all four parts of a Ukrainian holding are filled |
| `Form.HandleChangeKeepsSignatureDerived` | components/EditableInventoryForm.tsx:146-154 | text inputs and the toggle preserve "the signature is the derived one whenever it applies" |
| `Form.SignatureExample` | components/EditableInventoryForm.tsx:146-156 | filling the fourth part composes "ЦДІАК 1-2-3"; clearing a part afterwards leaves the composed signature in place |
| `Form.ManualOnThenOffClearsLocation` | components/EditableInventoryForm.tsx:121-138 | toggling manual entry on and off leaves every location field and the coordinates empty and nothing else changed |
| `Form.RefreshOptions` | components/EditableInventoryForm.tsx:56-77 | each option list is recomputed from the index only while the index is loaded, manual entry is off and every level above it is chosen; otherwise it keeps its old contents; recomputed types are exactly the distinct types of the recomputed settlements |
| `Form.NameOptions` | components/EditableInventoryForm.tsx:257-263 | the name options are exactly the settlements of the selected type, with their multiplicities and in the list's order; none when no type is text |
| `Form.AutoFill` | components/EditableInventoryForm.tsx:79-92 | only the coordinates change; with manual entry off and type and name chosen, they become those of the first settlement with both; otherwise nothing changes |
| `Form.AutoFillIdempotent` | components/EditableInventoryForm.tsx:79-92 | running the auto-fill again changes nothing |
| `Cascade.RegionChanged` | pages/add_inventory.tsx:95-118 | reading the rendered draft: with the index loaded, a region chosen and manual entry off, the lower levels and the coordinates are cleared, exactly the region's districts are offered and the lower lists emptied; otherwise the page is unchanged |
| `Cascade.DistrictChanged` | pages/add_inventory.tsx:121-147 | the same one level down: community, type, name and coordinates cleared, exactly the district's communities offered, the district list kept |
| `Cascade.CommunityChanged` | pages/add_inventory.tsx:150-178 | type and name cleared, coordinates kept, the community's settlements listed with exactly their distinct types |
| `Cascade.NameChecked` | pages/add_inventory.tsx:181-189 | reading the rendered page, with manual entry off and a type chosen, the name is cleared exactly when no listed settlement has that type and name; otherwise nothing changes; the option lists are never touched; run on its own render, it leaves a name that fits the type |
| `Cascade.Commit` | pages/add_inventory.tsx:95-189 | one round of the four effects only ever blanks levels below and coordinates of the rendered draft; it changes nothing in manual entry or when no watched value changed |
| `Cascade.RegionCommit` | pages/add_inventory.tsx:95-178 | a region change also fires the district and community effects: the lower levels and coordinates are cleared and the new region's districts offered, while the community and settlement lists come from the district and community the render still showed, with matching types |
| `Cascade.DistrictCommit` | pages/add_inventory.tsx:121-178 | a district change also fires the community effect: community, type, name and coordinates cleared, the district's communities offered, the settlement list taken from the community the render still showed |
| `Cascade.RegionCommitSettles` | pages/add_inventory.tsx:95-189 | in the round after a region change, whatever blanked fields are reported changed, nothing changes unless the region, the index or the mode changed again |
| `Cascade.SelectRegionClearsBelow` | pages/add_inventory.tsx:95-118 | picking a region in the form and letting the page react keeps the region, empties every level below and the coordinates, and offers the region's districts |
| `Cascade.PageAfterChangeIntended` | pages/add_inventory.tsx:44 | with the form's manual-entry flag honoured, manual entry leaves the page's draft alone and otherwise the page reacts as written |
| `Cascade.PageAfterChange` | pages/add_inventory.tsx:95-189 | as written, the page's reaction to a field change only blanks lower levels or coordinates, and a field no effect watches changes nothing |
| `Cascade.PageIgnoresFormManual` | pages/add_inventory.tsx:44 | as written, the page reacts the same whether or not the form is in manual entry, and the same as the intended reaction with manual entry off |
| `Cascade.ManualNameWiped` | pages/add_inventory.tsx:181-189 | as written, a name typed in manual entry that no listed settlement carries is cleared; with the flag honoured it is kept |
| `Validation.FirstMissing` | pages/add_inventory.tsx:282-287 | the position found is the first required field that is falsy, and none is found exactly when all are truthy |
| `Validation.Validate` | pages/add_inventory.tsx:245-322 | the gate passes exactly when every rule holds; a missing required field is reported by the first such field's message |
| `Validation.ValidateIsFirstFailingRule` | pages/add_inventory.tsx:245-322 | the gate equals the fail-fast reading of its rule list: required fields in order, then year, e-mail, link, page count, start page |
| `Validation.RequiredInOrder` | pages/add_inventory.tsx:246-287 | the first empty field among the always-required ones is the one reported, whatever else is missing |
| `Validation.EmptyRegionMasksEmail` | pages/add_inventory.tsx:259-285 | an empty region is reported by the region's required-field message whatever else the draft holds |
| `Validation.YearCheckedAfterRequired` | pages/add_inventory.tsx:289-292 | once the required fields are filled, the year message appears exactly when a year is given and does not read as an integer from 1500 to 2000 |
| `Validation.EmailPatternIffWellFormed` | pages/add_inventory.tsx:294 | the e-mail pattern accepts exactly texts with no white space, one `@` with text before it, and a dot strictly inside the part after it |
| `Validation.EmailCheckedAfterYear` | pages/add_inventory.tsx:294-297 | with the required fields filled and the year in range, the e-mail message appears exactly when the address is not well formed |
| `Submission.MatchKey` | pages/add_inventory.tsx:337-348 | the lookup key holds the six location and signature fields, plus the year exactly when one is given, each with the draft's value |
| `Submission.YearlessKeyIgnoresYear` | pages/add_inventory.tsx:346-348 | without a year in the draft, a row matches whatever year it carries |
| `Submission.FirstMatch` | pages/add_inventory.tsx:350-360 | the lookup finds nothing exactly when no row matches the key; what it finds is a matching row of the table |
| `Submission.SingleMatch` | pages/add_inventory.tsx:350-354 | the lookup as written returns a row exactly when one row matches, and that row matches |
| `Submission.ToInsert` | pages/add_inventory.tsx:374-382 | the inserted row is the draft with the six numeric fields added; coordinates read with `parseFloat`, null when empty; every other field unchanged |
| `Submission.IntegerFieldsParsed` | pages/add_inventory.tsx:378-381 | mark type, page count, start page and year are read with `parseInt`, null when empty |
| `Submission.InsertedNumbersOfValidDraft` | pages/add_inventory.tsx:374-382 | for a draft that passed the gate, page count and start page are stored as positive integers, the year as an integer from 1500 to 2000, and each is null exactly when left empty |
| `Submission.Decide` | pages/add_inventory.tsx:330-393 | a gate message is returned unchanged; the pending rows grow by the coerced draft exactly when the gate passed, neither lookup hit and the insert succeeded, and then the outcome is "saved" |
| `Submission.Submit` | pages/add_inventory.tsx:324-394 | an invalid draft is refused with the gate's message; the draft is appended to the pending rows exactly when it is valid, matches no approved and no pending row, and the insert succeeds |
| `Submission.SubmitAsWritten` | pages/add_inventory.tsx:350-393 | as written, with both lookups through `maybeSingle()`: an invalid draft is refused with the gate's message; the draft is appended to the pending rows exactly when it is valid, the approved rows and the pending rows each do not hold exactly one match, and the insert succeeds |
| `Submission.SubmitReportsApprovedMatch` | pages/add_inventory.tsx:356-360 | a valid draft matching an approved row is reported with the link to the first such row |
| `Submission.SubmitReportsPendingMatch` | pages/add_inventory.tsx:362-371 | without an approved match, a pending match is reported and nothing is inserted |
| `Submission.LookupsOnTwoMatches` | pages/add_inventory.tsx:350-354 | with two matching rows, the first-match lookup finds the first and the single-row lookup finds none |
| `Submission.TwoMatchesLetDuplicateThrough` | pages/add_inventory.tsx:350-360 | as written, a valid draft matching two approved rows is inserted |
| `Submission.TwoMatchesReported` | pages/add_inventory.tsx:350-360 | with the first-match lookup, the same draft is reported as existing and nothing is inserted |
| `Moderation.Load` | pages/admin_approve.tsx:44-68 | the first pending row is shown at position 0 with its falsy location fields read as empty text, other fields as they are, and its coordinates remembered |
| `Moderation.GoToRecord` | pages/admin_approve.tsx:77-87 | an in-range position shows that record and remembers that record's own coordinates; any other position changes nothing |
| `Moderation.ButtonsDisabledIffNoMove` | pages/admin_approve.tsx:304-319 | "previous" and "next" are disabled exactly when pressing them would change nothing |
| `Moderation.IntegerOrNull` | pages/admin_approve.tsx:149-153 | empty or null input gives null; otherwise the result is the integer `parseInt` reads, or null for NaN |
| `Moderation.IntegerOrNullOfInt` | pages/admin_approve.tsx:149-153 | an integer passes through the coercion unchanged |
| `Moderation.IntegerOrNullIdempotent` | pages/admin_approve.tsx:149-153 | coercing twice is coercing once |
| `Moderation.IntegerCoercionsAgreeOnTruthy` | pages/admin_approve.tsx:149-153 | on every truthy value, the moderation coercion agrees with the add page's `v ? parseInt(v) : null` |
| `Moderation.IntegerCoercionsDifferOnZero` | pages/admin_approve.tsx:149-153 | on the number 0 the two pages differ: the moderation page keeps 0, the add page stores null |
| `Moderation.DecimalOrNull` | pages/admin_approve.tsx:155-159 | empty or null input gives null; otherwise the result is the number `parseFloat` reads, or null for NaN |
| `Moderation.OrElse` | pages/admin_approve.tsx:166-167 | `a ?? b` is null only when both are, is `a` whenever `a` is not null, and is `b` whenever `a` is null |
| `Moderation.Prepare` | pages/admin_approve.tsx:140-172 | the approved row has the form's fields without `is_ukrainian_archive`, plus the prepared fields; every other field is copied unchanged |
| `Moderation.PreparedValues` | pages/admin_approve.tsx:161-172 | the row is approved and carries the author; coordinates are the parsed form value or else the parsed remembered one; the three counts are integer-coerced; the mark type is copied |
| `Moderation.DeleteById` | pages/admin_approve.tsx:187-190 | deleting by id keeps exactly the rows whose id differs |
| `Moderation.WithoutPositionIsCut` | pages/admin_approve.tsx:200 | dropping the current position from the list is cutting the list around it |
| `Moderation.NextIndex` | pages/admin_approve.tsx:212 | after a removal, the position stays, or moves to the new last record, or is 0 when none is left |
| `Moderation.RemoveCurrentAsWritten` | pages/admin_approve.tsx:199-215 | as written, the record leaves the queue; the following record slides into place, or the new last one is shown, or the form empties; the remembered coordinates are not touched |
| `Moderation.RemoveCurrent` | pages/admin_approve.tsx:199-215 | the record leaves the queue; the following record slides into place, or the new last one is shown, or the form empties; the remembered coordinates are those of the record shown, as pages/admin_approve.tsx:82-85 sets them |
| `Moderation.Accept` | pages/admin_approve.tsx:95-220 | an approved match or a failed insert changes nothing; otherwise the prepared record is appended to the approved rows and the record leaves the queue; the pending rows lose the record's id exactly when the delete succeeds and are otherwise unchanged |
| `Moderation.AcceptAsWritten` | pages/admin_approve.tsx:95-220 | as written: exactly one approved match reports the duplicate and changes nothing, a failed insert changes nothing; otherwise, including with two or more matches, the prepared record is appended and leaves the queue, the pending rows lose its id exactly when the delete succeeds, and the remembered coordinates are never refreshed |
| `Moderation.DeleteFailureStillDropsRecord` | pages/admin_approve.tsx:186-215 | when the delete fails, the record still leaves the local queue while the pending rows keep it |
| `Moderation.Reject` | pages/admin_approve.tsx:223-264 | nothing changes unless the moderator confirms and the delete succeeds; then the record's id leaves the pending rows and the record leaves the queue; the approved rows are never touched |
| `Moderation.RejectAsWritten` | pages/admin_approve.tsx:223-259 | as written, the same decision, but the remembered coordinates stay those of the rejected record |
| `Moderation.AcceptSoleRecord` | pages/admin_approve.tsx:186-210 | accepting the only pending record empties the queue, the form and the pending rows, appends it to the approved rows and says all is processed |
| `Moderation.AcceptOnlyRecord` | pages/admin_approve.tsx:186-210 | for any one-record queue, accepting approves the prepared record, deletes its id from the pending rows and empties queue and form |
| `Moderation.RejectSoleRecord` | pages/admin_approve.tsx:247-254 | rejecting the only pending record empties the queue, leaves the approved rows alone and says all is processed |
| `Moderation.StaleCoordsReachNextRecord` | pages/admin_approve.tsx:161-215 | as written, after accepting a record with a latitude, a following record without one is approved with the previous record's latitude |
| `Moderation.FreshCoordsForNextRecord` | pages/admin_approve.tsx:82-85 | with the remembered coordinates refreshed as navigation does, that following record is approved without a latitude |
| `Moderation.StaleCoordsAfterReject` | pages/admin_approve.tsx:244-258 | as written, after rejecting a record with a latitude, a following record without one is approved with the rejected record's latitude |
| `Moderation.FreshCoordsAfterReject` | pages/admin_approve.tsx:82-85 | with the coordinates refreshed on reject, that following record is approved without a latitude |
| `Moderation.FallbackIsOwnCoords` | pages/admin_approve.tsx:166-167 | whenever the remembered coordinates belong to the record shown, the approved latitude is the edited one, the record's own, or null |
| `Listing.PageRange` | pages/index.tsx:22-23 | a page asks for twenty rows |
| `Listing.RowOnExactlyOnePage` | pages/index.tsx:6-23 | a row position is on a page exactly when the page is the position divided by twenty, and each page starts right after the previous one ends |
| `Listing.PagesDisjoint` | pages/index.tsx:22-23 | two different pages share no row |
| `Listing.Fetch` | pages/index.tsx:26-31 | a page shows at most twenty rows: the requested positions that exist, in order |
| `Listing.PrevPage` | pages/index.tsx:134 | "previous" never goes below the first page and goes back one from any later page |
| `Listing.PrevEnabledGoesBack` | pages/index.tsx:133-134 | an enabled "previous" goes back exactly one page |
| `Listing.ShortPageIsLast` | pages/index.tsx:140 | when "next" is disabled by a short page, no rows lie beyond it |
| `Listing.FullLastPageLeadsToEmptyPage` | pages/index.tsx:140-141 | when the rows fill the last page exactly, "next" stays enabled and leads to an empty page |
| `Listing.Present` | pages/index.tsx:86-87 | `filter(Boolean)` keeps the texts of exactly the truthy parts, in order: the part at position `i` lands after the truthy parts before it; no text is empty; the result is empty exactly when no part is truthy |
| `Listing.LocationLabel` | pages/index.tsx:86-91 | the label is empty exactly when all five location parts are falsy |
| `Listing.LabelShowsEveryPart` | pages/index.tsx:86-91 | every truthy location part occurs in the label |
| `Listing.LabelLeadingSpace` | pages/index.tsx:88 | without administrative parts, a settlement's label starts with the separating space |
| `Listing.LabelOfCompleteRow` | pages/index.tsx:86-91 | with every part present the label reads "region, district, community type name" |
| `Listing.LabelOfPartialRow` | pages/index.tsx:86-91 | missing parts drop out with their separators: region, community and name alone read "region, community name" |
| `Listing.MapLink` | pages/index.tsx:95-106 | the link is shown exactly when both coordinates are truthy |
| `Listing.LinkTextInjective` | pages/index.tsx:97 | the link text determines both coordinate texts when the latitude holds no `&` |
| `Listing.MapLinkDeterminesCoords` | pages/index.tsx:95-97 | two rows with the same link have the same coordinate texts when their latitudes hold no `&` |
| `Archives.Filter` | pages/archives.tsx:24-32 | the result is a subsequence of the directory holding exactly the matching archives, each as often as in the directory |
| `Archives.EmptyTermKeepsAll` | pages/archives.tsx:24-32 | an empty search keeps the whole directory |
| `Archives.MatchesNarrower` | pages/archives.tsx:25-31 | an archive matching a term matches every term contained in it |
| `Archives.FilterNarrows` | pages/archives.tsx:24-32 | filtering for a longer term equals filtering first for any term it contains and then for the longer one |
| `Stats.ContributedIffSomeRecord` | pages/stats.tsx:54 | the user has contributed exactly when they have an approved or a pending record |
| `Stats.RankOf` | pages/stats.tsx:107-124 | administrators rank first whatever they contributed; other contributors rank second; everyone else third |
| `Stats.TitleAndIconAgree` | pages/stats.tsx:107-124 | title and crown each determine the rank, so they always agree |
| `Stats.AdminOutranksContribution` | pages/stats.tsx:107-124 | an administrator is titled "Володар інвентарів" with the admin crown, contribution or not |
| `SearchBar.HandleChange` | components/SearchBar.tsx:11-16 | typing replaces that field only, and the page is told exactly the filters the bar keeps |
| `SearchBar.ClearFilters` | components/SearchBar.tsx:18-26 | clearing empties all three fields and reports the same |
| `SearchBar.EditsCombine` | components/SearchBar.tsx:11-26 | the filters depend only on the last text typed into each field: typing a field's own text back changes nothing, a later edit of a field overrides an earlier one, edits of different fields commute, and emptying each field by hand reaches the cleared filters |

## Left out

- Floating point: `parseFloat` yields the number literal it read, as text. Arithmetic on coordinates, the exponent form (`1e5`), `Infinity` and number formatting by `toString` are not modelled.
- JsText.ParseIntJS: JavaScript numbers are doubles, and the model reads them as unbounded integers. Above 2^53 `parseInt` loses precision (`parseInt("9007199254740993")` is 9007199254740992), and `String` writes integers of 10^21 and more in exponent form, so `ParseIntOfIntToString` holds in JavaScript only for integers below 2^53 in magnitude. Years and ids on these pages stay far below.
- `parseInt` is modelled on decimal text only. The `0x` prefix that `parseInt` without a radix accepts is not modelled.
- `toLowerCase` is modelled for the ASCII capitals A-Z, the Cyrillic capitals U+0400-U+042F and U+0490 only. Every other character keeps its case, including Latin capitals outside ASCII such as Ł, Ś, Ó or Ä.
- JavaScript's `undefined` and `null` are one value, `Null`. `String(undefined)` is therefore modelled as `"null"`.
- Database matching: `.match` compares the text of the stored and the queried values. PostgreSQL's type casts, row ordering by `created_at` and column defaults are not modelled. `Submission.RowMatches` compares a stored null as the text "null", whereas SQL equality never matches a null. The two differ only when a stored key column is null and the queried value is null or the text "null".
- Network failures and thrown exceptions (the `try`/`catch` blocks) are left out. A failed store call appears as an explicit boolean. Toasts and alerts become the `Outcome` and `Notice` values.
- Authentication is left out: the admin check, the user lookup and the stats page's "log in" branch. The author id is a parameter.
- React scheduling is modelled only for the page's cascade. There, one round (`Cascade.Commit`) runs every effect whose watched values changed, in order, on the values of one render. The form's own effects (`Form.RefreshOptions`, `Form.AutoFill`) are modelled as one step each, applied after the change.
- The form's prop synchronisation effects (components/EditableInventoryForm.tsx:48-54 and 94-111) are left out. The form and the page are modelled as sharing one draft.
- MapSelector, the map page, the record page, the settlement page, the header and the other static pages are not part of this model.
- Loading the region index and the archive directory over HTTP is left out. Each is a parameter; the index is `None` while not yet loaded.
- pages/archives.tsx declares the archive's fields under Ukrainian keys but reads `short_name`, `country`, `full_name_ukr` and `full_name_native`. The model follows the keys the filter reads.
- Stats.RankOf: the stats query counts (`count: 'exact'`) are taken as given numbers, and the admin flag as a given boolean.
- Listing.Fetch: the query's ordering and its `approved = true` filter are applied before the rows are given. Only the range cut is modelled.
- Listing.PageRange: states the size of the range and, with `RowOnExactlyOnePage`, where it lies. It does not restate the `page * 20` formula.
- Moderation.Accept: the corrected lookup and the refreshed coordinates are used (see Findings). `AcceptAsWritten` is the code as written.
- Moderation.Reject: the refreshed coordinates are used (see Findings). `RejectAsWritten` is the code as written.
- Moderation.RemoveCurrent: also sets the remembered coordinates, which lines 199-215 and 243-259 do not (see Findings). `RemoveCurrentAsWritten` is the code as written.
- Submission.Submit: the first-match lookup stands in for `.maybeSingle()` (see Findings). `SubmitAsWritten` is the code as written.
- Lookup.Districts: the district and community option lists are sets. The order in which `Object.keys` lists them is not modelled.
- Listing.LocationLabel: its own contract states only when the label is empty. The label's layout is stated by `LabelOfCompleteRow`, `LabelOfPartialRow` and `LabelLeadingSpace` for the shapes they cover, and `LabelShowsEveryPart` for every row.

## Findings

| source | as written | input that shows it | evidently intended | confidence | as-written member | corrected member |
|---|---|---|---|---|---|---|
| pages/add_inventory.tsx:350-360 | the duplicate lookups use `.maybeSingle()` and ignore its error. Two or more matching rows make it fail with `data` null, which reads as "no duplicate". The same lookup is used at pages/admin_approve.tsx:124-137 | two approved rows for the same place and signature that differ only in year, and a valid draft with no year (its key matches both); the draft is inserted | any matching row blocks the insert and is reported | medium, not executed | `Submission.TwoMatchesLetDuplicateThrough` | `Submission.TwoMatchesReported` |
| pages/add_inventory.tsx:44 | the page's cascade effects (95-189) test the page's own `manualEntry`. Nothing ever sets it, because the page's change handler is attached to no input. The form's manual-entry toggle is a different flag | manual entry switched on in the form, type "Село" chosen, and a settlement name typed that is not in the listed settlements; the page clears the name | the effects stand still while the form is in manual entry | medium, not executed | `Cascade.ManualNameWiped` | `Cascade.PageAfterChangeIntended` |
| pages/admin_approve.tsx:199-215 | after an accept, the next record is shown without refreshing `originalCoords`. Line 166 falls back to those remembered coordinates when the form's latitude is empty | two pending records, the first with a latitude and the second without one; accepting the first and then the second approves the second with the first one's latitude | the remembered coordinates belong to the record shown, as `goToRecord` (82-85) arranges | medium, not executed | `Moderation.StaleCoordsReachNextRecord` | `Moderation.FreshCoordsForNextRecord` |
| pages/admin_approve.tsx:244-258 | a reject shows the next record in the same way, without refreshing `originalCoords` | the same two records; rejecting the first and accepting the second approves the second with the first one's latitude | as above | medium, not executed | `Moderation.StaleCoordsAfterReject` | `Moderation.FreshCoordsAfterReject` |

The third and fourth rows show only when the second record's latitude stays
empty in the form. The form's auto-fill (components/EditableInventoryForm.tsx:79-92)
may fill it from the settlement's coordinates, and does not in cases such as
these: the record lacks a type or name; its settlement is missing from the
index; the form's own manual-entry flag (components/EditableInventoryForm.tsx:30)
is on, which persists from one record to the next; or the second record has the
same type, name and settlement list as the first, so the auto-fill effect does
not run again.

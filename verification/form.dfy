/**
 * The record draft as the shared form edits it
 * (components/EditableInventoryForm.tsx): the change handler, the option
 * lists derived from the lookup index, the settlement-name options and the
 * coordinate auto-fill.
 */
module Form {
  import opened Wrappers
  import opened JsValue
  import opened Lookup
  import opened Sequences

  const Region := "current_region"
  const District := "current_district"
  const Community := "current_community"
  const SettlementType := "current_settlement_type"
  const SettlementName := "current_settlement_name"
  const Latitude := "latitude"
  const Longitude := "longitude"
  const IsUkrainianArchive := "is_ukrainian_archive"
  const Archive := "archive"
  const Fonds := "fonds"
  const Series := "series"
  const RecordNo := "record"
  const CaseSignature := "case_signature"
  const ManualEntry := "manualEntry"

  /** The value of the archive-location select meaning "held in a Ukrainian archive". */
  const Yes := "Так"

  const Coordinates: set<string> := {Latitude, Longitude}

  /** What turning manual entry on clears: the current location and its coordinates. */
  const LocationFields: set<string> := {Region, District, Community, SettlementType, SettlementName, Latitude, Longitude}

  /** A change event: a checkbox with its checked state, or any other input with its text. */
  datatype Event = Checkbox(name: string, checked: bool) | Input(name: string, value: string)

  datatype FormState = FormState(data: Record, manual: bool)

  /** The record is flagged as a Ukrainian holding and all four signature parts are filled. */
  predicate SignatureComplete(d: Record) {
    && Get(d, IsUkrainianArchive) == Str(Yes)
    && Truthy(Get(d, Archive)) && Truthy(Get(d, Fonds))
    && Truthy(Get(d, Series)) && Truthy(Get(d, RecordNo))
  }

  /** `"{archive} {fonds}-{series}-{record}"`. */
  function DerivedSignature(d: Record): string {
    ToStr(Get(d, Archive)) + " " + ToStr(Get(d, Fonds)) + "-" + ToStr(Get(d, Series)) + "-" + ToStr(Get(d, RecordNo))
  }

  /** The draft's signature is the derived one whenever the derivation applies. */
  predicate SignatureDerived(d: Record) {
    SignatureComplete(d) ==> Get(d, CaseSignature) == Str(DerivedSignature(d))
  }

  /** The change handler of the form. */
  function HandleChange(st: FormState, ev: Event): (r: FormState)
    ensures ev.Checkbox? && ev.name == ManualEntry ==>
      && r.manual == ev.checked
      && r.data == Clear(st.data, if ev.checked then LocationFields else Coordinates)
    ensures ev.Checkbox? && ev.name != ManualEntry ==>
      r == st.(data := st.data[ev.name := Bool(ev.checked)])
    ensures ev.Input? ==> r.manual == st.manual && SameOutside(r.data, st.data, {ev.name, CaseSignature})
    ensures ev.Input? ==> ev.name in r.data && (ev.name != CaseSignature ==> r.data[ev.name] == Str(ev.value))
    ensures ev.Input? ==> SignatureDerived(r.data)
    ensures ev.Input? && !SignatureComplete(r.data) ==>
      Get(r.data, CaseSignature) == Get(st.data[ev.name := Str(ev.value)], CaseSignature)
  {
    match ev
    case Checkbox(name, checked) =>
      if name == ManualEntry then
        FormState(Clear(st.data, if checked then LocationFields else Coordinates), checked)
      else
        st.(data := st.data[name := Bool(checked)])
    case Input(name, value) =>
      var updated := st.data[name := Str(value)];
      if SignatureComplete(updated) then
        st.(data := updated[CaseSignature := Str(DerivedSignature(updated))])
      else
        st.(data := updated)
  }

  /**
   * Text inputs and the manual-entry toggle keep the signature derived
   * whenever the derivation applies.
   */
  lemma HandleChangeKeepsSignatureDerived(st: FormState, ev: Event)
    requires SignatureDerived(st.data)
    requires ev.Input? || ev.name == ManualEntry
    ensures SignatureDerived(HandleChange(st, ev).data)
  {
    if ev.Checkbox? {
      var d' := HandleChange(st, ev).data;
      assert forall k :: k in {IsUkrainianArchive, Archive, Fonds, Series, RecordNo, CaseSignature} ==> Get(d', k) == Get(st.data, k);
    }
  }

  /**
   * Filling the four parts composes the signature, and clearing one of them
   * afterwards leaves the composed signature in place.
   */
  lemma SignatureExample()
    ensures
      var d := map[IsUkrainianArchive := Str(Yes), Archive := Str("ЦДІАК"), Fonds := Str("1"), Series := Str("2"), RecordNo := Str("")];
      var filled := HandleChange(FormState(d, false), Input(RecordNo, "3"));
      var cleared := HandleChange(filled, Input(Series, ""));
      && Get(filled.data, CaseSignature) == Str("ЦДІАК 1-2-3")
      && Get(cleared.data, CaseSignature) == Str("ЦДІАК 1-2-3")
  {
    var d := map[IsUkrainianArchive := Str(Yes), Archive := Str("ЦДІАК"), Fonds := Str("1"), Series := Str("2"), RecordNo := Str("")];
    var filled := HandleChange(FormState(d, false), Input(RecordNo, "3"));
    assert SignatureComplete(d[RecordNo := Str("3")]);
    assert DerivedSignature(d[RecordNo := Str("3")]) == "ЦДІАК 1-2-3";
    var cleared := HandleChange(filled, Input(Series, ""));
    assert !SignatureComplete(filled.data[Series := Str("")]);
  }

  /** Manual entry toggled on and then off leaves every location field and the coordinates empty. */
  lemma ManualOnThenOffClearsLocation(st: FormState)
    ensures
      var r := HandleChange(HandleChange(st, Checkbox(ManualEntry, true)), Checkbox(ManualEntry, false));
      && !r.manual
      && (forall k :: k in LocationFields ==> r.data[k] == Blank)
      && SameOutside(r.data, st.data, LocationFields)
  {
  }

  /** The option lists the form derives from the lookup index. */
  datatype Options = Options(districts: set<string>, communities: set<string>, settlements: seq<Settlement>, types: seq<string>)

  const NoOptions := Options({}, {}, [], [])

  /**
   * The three option-list effects. Each list is recomputed only while the
   * index is loaded, manual entry is off and every level above it is
   * selected; otherwise it keeps its previous, possibly stale, contents.
   */
  function RefreshOptions(idx: Option<Index>, st: FormState, o: Options): (r: Options)
    ensures
      var region := ToStr(Get(st.data, Region));
      var district := ToStr(Get(st.data, District));
      var community := ToStr(Get(st.data, Community));
      var loaded := idx.Some? && !st.manual && Truthy(Get(st.data, Region));
      && (loaded ==> forall x :: x in r.districts <==> region in idx.value && x in idx.value[region])
      && (!loaded ==> r.districts == o.districts)
      && (loaded && Truthy(Get(st.data, District)) ==>
            forall x :: x in r.communities <==> region in idx.value && district in idx.value[region] && x in idx.value[region][district])
      && (!(loaded && Truthy(Get(st.data, District))) ==> r.communities == o.communities)
      && (loaded && Truthy(Get(st.data, District)) && Truthy(Get(st.data, Community)) ==>
            && r.settlements == SettlementsAt(idx.value, region, district, community)
            && r.types == DistinctTypes(r.settlements)
            && forall t :: t in r.types <==> exists s :: s in r.settlements && s.kind == t)
      && (!(loaded && Truthy(Get(st.data, District)) && Truthy(Get(st.data, Community))) ==>
            r.settlements == o.settlements && r.types == o.types)
  {
    var d := st.data;
    var region := ToStr(Get(d, Region));
    var district := ToStr(Get(d, District));
    var community := ToStr(Get(d, Community));
    var loaded := idx.Some? && !st.manual && Truthy(Get(d, Region));
    var districts := if loaded then Districts(idx.value, region) else o.districts;
    var withDistrict := loaded && Truthy(Get(d, District));
    var communities := if withDistrict then Communities(idx.value, region, district) else o.communities;
    var withCommunity := withDistrict && Truthy(Get(d, Community));
    var settlements := if withCommunity then SettlementsAt(idx.value, region, district, community) else o.settlements;
    var types := if withCommunity then DistinctTypes(settlements) else o.types;
    Options(districts, communities, settlements, types)
  }

  /** The settlements offered as names: those whose type is the selected one, in list order. */
  function NameOptions(ss: seq<Settlement>, kind: Value): (r: seq<Settlement>)
    ensures SubsequenceOf(r, ss)
    ensures forall s :: s in r <==> s in ss && Str(s.kind) == kind
    ensures forall s :: s in r ==> multiset(r)[s] == multiset(ss)[s]
  {
    match kind
    case Str(t) => OfType(ss, t)
    case _ => []
  }

  /** The settlement has the selected type and the selected name. */
  predicate Selected(s: Settlement, d: Record) {
    Str(s.kind) == Get(d, SettlementType) && Str(s.name) == Get(d, SettlementName)
  }

  /**
   * Coordinate auto-fill: with manual entry off and both type and name
   * selected, the first settlement with that type and name supplies the
   * coordinates; without such a settlement the draft stays as it is.
   */
  function AutoFill(st: FormState, ss: seq<Settlement>): (r: Record)
    ensures SameOutside(r, st.data, Coordinates)
    ensures st.manual || !Truthy(Get(st.data, SettlementType)) || !Truthy(Get(st.data, SettlementName)) ==> r == st.data
    ensures (forall s :: s in ss ==> !Selected(s, st.data)) ==> r == st.data
    ensures !st.manual && Truthy(Get(st.data, SettlementType)) && Truthy(Get(st.data, SettlementName))
            && (exists s :: s in ss && Selected(s, st.data)) ==>
      exists k :: 0 <= k < |ss| && Selected(ss[k], st.data)
        && (forall j :: 0 <= j < k ==> !Selected(ss[j], st.data))
        && Get(r, Latitude) == CoordText(ss[k].lat) && Get(r, Longitude) == CoordText(ss[k].lon)
  {
    var d := st.data;
    if !st.manual && Truthy(Get(d, SettlementType)) && Truthy(Get(d, SettlementName)) then
      match FindSettlement(ss, Get(d, SettlementType), Get(d, SettlementName))
      case Some(k) =>
        assert ss[k] in ss && Selected(ss[k], d);
        d[Latitude := CoordText(ss[k].lat)][Longitude := CoordText(ss[k].lon)]
      case None => d
    else d
  }

  /** Auto-fill settles in one step: running it again changes nothing. */
  lemma AutoFillIdempotent(st: FormState, ss: seq<Settlement>)
    ensures AutoFill(st.(data := AutoFill(st, ss)), ss) == AutoFill(st, ss)
  {
  }
}

/**
 * The clearing cascade of the add-inventory page (pages/add_inventory.tsx):
 * when a higher level of the current location changes, the page clears the
 * levels below it and recomputes its own option lists; when the settlement
 * type or name changes, a name that no settlement of that type carries is
 * cleared.
 *
 * The four effects watch overlapping values. After a render every effect
 * one of whose watched values changed runs, in declaration order, and each
 * reads the values of that render, not what an earlier effect of the same
 * round has just set. Their draft updates compose; of their list updates
 * the last one wins. A round is `Commit`.
 */
module Cascade {
  import opened Wrappers
  import opened JsValue
  import opened Lookup
  import opened Form

  const RegionDependents: set<string> := {District, Community, SettlementType, SettlementName, Latitude, Longitude}
  const DistrictDependents: set<string> := {Community, SettlementType, SettlementName, Latitude, Longitude}
  const CommunityDependents: set<string> := {SettlementType, SettlementName}

  /** The watched values that are not draft fields: the lookup index and the page's settlement list. */
  const IndexLoaded := "nestedData"
  const SettlementList := "settlements"

  /** What each effect watches. */
  const RegionWatch: set<string> := {Region, IndexLoaded, ManualEntry}
  const DistrictWatch: set<string> := {District, Region, IndexLoaded, ManualEntry}
  const CommunityWatch: set<string> := {Community, District, Region, IndexLoaded, ManualEntry}
  const NameWatch: set<string> := {SettlementType, SettlementList, SettlementName, ManualEntry}

  /** The page's copy of the draft and its own option lists. */
  datatype Page = Page(data: Record, options: Options)

  function RegionKey(d: Record): string { ToStr(Get(d, Region)) }
  function DistrictKey(d: Record): string { ToStr(Get(d, District)) }
  function CommunityKey(d: Record): string { ToStr(Get(d, Community)) }

  /** The guards of the three level effects, read on the rendered draft. */
  predicate RegionReady(idx: Option<Index>, manual: bool, d: Record) {
    idx.Some? && Truthy(Get(d, Region)) && !manual
  }

  predicate DistrictReady(idx: Option<Index>, manual: bool, d: Record) {
    RegionReady(idx, manual, d) && Truthy(Get(d, District))
  }

  predicate CommunityReady(idx: Option<Index>, manual: bool, d: Record) {
    DistrictReady(idx, manual, d) && Truthy(Get(d, Community))
  }

  /**
   * The region effect, reading the rendered draft `d` and updating the page
   * `p`: the lower levels and the coordinates are cleared, the region's
   * districts listed and the lower lists emptied.
   */
  function RegionChanged(idx: Option<Index>, manual: bool, d: Record, p: Page): (r: Page)
    ensures !RegionReady(idx, manual, d) ==> r == p
    ensures RegionReady(idx, manual, d) ==>
      && r.data == Clear(p.data, RegionDependents)
      && (forall x :: x in r.options.districts <==> RegionKey(d) in idx.value && x in idx.value[RegionKey(d)])
      && r.options.communities == {} && r.options.settlements == [] && r.options.types == []
  {
    if RegionReady(idx, manual, d) then
      Page(Clear(p.data, RegionDependents), Options(Districts(idx.value, RegionKey(d)), {}, [], []))
    else p
  }

  /** The district effect: community, type, name and coordinates cleared, the district's communities listed. */
  function DistrictChanged(idx: Option<Index>, manual: bool, d: Record, p: Page): (r: Page)
    ensures !DistrictReady(idx, manual, d) ==> r == p
    ensures DistrictReady(idx, manual, d) ==>
      && r.data == Clear(p.data, DistrictDependents)
      && r.options.districts == p.options.districts
      && (forall x :: x in r.options.communities <==>
            RegionKey(d) in idx.value && DistrictKey(d) in idx.value[RegionKey(d)]
            && x in idx.value[RegionKey(d)][DistrictKey(d)])
      && r.options.settlements == [] && r.options.types == []
  {
    if DistrictReady(idx, manual, d) then
      var communities := Communities(idx.value, RegionKey(d), DistrictKey(d));
      Page(Clear(p.data, DistrictDependents), p.options.(communities := communities, settlements := [], types := []))
    else p
  }

  /** The coordinates are not among the fields a new community clears. */
  lemma CoordinatesSurviveCommunity()
    ensures Latitude !in CommunityDependents && Longitude !in CommunityDependents
  {
    assert Latitude[0] != SettlementType[0] && Latitude[0] != SettlementName[0];
    assert Longitude[0] != SettlementType[0] && Longitude[0] != SettlementName[0];
  }

  /**
   * The community effect: only type and name are cleared (the coordinates
   * stay), and the community's settlements are listed with their distinct
   * types.
   */
  function CommunityChanged(idx: Option<Index>, manual: bool, d: Record, p: Page): (r: Page)
    ensures !CommunityReady(idx, manual, d) ==> r == p
    ensures CommunityReady(idx, manual, d) ==>
      && r.data == Clear(p.data, CommunityDependents)
      && Get(r.data, Latitude) == Get(p.data, Latitude) && Get(r.data, Longitude) == Get(p.data, Longitude)
      && r.options.districts == p.options.districts && r.options.communities == p.options.communities
      && r.options.settlements == SettlementsAt(idx.value, RegionKey(d), DistrictKey(d), CommunityKey(d))
      && NoDuplicates(r.options.types)
      && (forall t :: t in r.options.types <==> exists s :: s in r.options.settlements && s.kind == t)
  {
    if CommunityReady(idx, manual, d) then
      var ss := SettlementsAt(idx.value, RegionKey(d), DistrictKey(d), CommunityKey(d));
      CoordinatesSurviveCommunity();
      Page(Clear(p.data, CommunityDependents), p.options.(settlements := ss, types := DistinctTypes(ss)))
    else p
  }

  /** The chosen name is empty, or no type is chosen, or some listed settlement has both. */
  predicate NameFitsType(d: Record, ss: seq<Settlement>) {
    !Truthy(Get(d, SettlementType)) || Get(d, SettlementName) == Blank || exists s :: s in ss && Selected(s, d)
  }

  /**
   * The name check, reading the rendered page `v` and updating `p`: with
   * manual entry off and a type chosen, the name is cleared exactly when no
   * listed settlement of that type carries it.
   */
  function NameChecked(manual: bool, v: Page, p: Page): (r: Page)
    ensures r.options == p.options
    ensures !manual && Truthy(Get(v.data, SettlementType))
            && !(exists s :: s in v.options.settlements && Selected(s, v.data)) ==>
      r.data == p.data[SettlementName := Blank]
    ensures manual || !Truthy(Get(v.data, SettlementType))
            || (exists s :: s in v.options.settlements && Selected(s, v.data)) ==>
      r == p
    ensures !manual && p == v ==> NameFitsType(r.data, r.options.settlements)
  {
    if !manual && Truthy(Get(v.data, SettlementType)) then
      var filtered := NameOptions(v.options.settlements, Get(v.data, SettlementType));
      if exists s :: s in filtered && Str(s.name) == Get(v.data, SettlementName) then p
      else Page(p.data[SettlementName := Blank], p.options)
    else p
  }

  /** Some value the effect watches is among the changed ones. */
  predicate Fires(changed: set<string>, watch: set<string>) {
    changed * watch != {}
  }

  /** `r` differs from `d` at most by blanking lower levels or coordinates. */
  ghost predicate BlanksBelow(r: Record, d: Record) {
    && SameOutside(r, d, RegionDependents)
    && forall k :: k in RegionDependents ==> Get(r, k) == Get(d, k) || Get(r, k) == Blank
  }

  /** Blanking more of the lower levels keeps a draft within `BlanksBelow`. */
  lemma ClearBlanksBelow(r: Record, d: Record, keys: set<string>)
    requires keys <= RegionDependents && BlanksBelow(r, d)
    ensures BlanksBelow(Clear(r, keys), d)
  {
  }

  /** Each effect keeps the draft within `BlanksBelow` of the rendered one. */
  lemma RegionBlanksBelow(idx: Option<Index>, manual: bool, v: Page, p: Page)
    requires BlanksBelow(p.data, v.data)
    ensures BlanksBelow(RegionChanged(idx, manual, v.data, p).data, v.data)
  {
    ClearBlanksBelow(p.data, v.data, RegionDependents);
  }

  lemma DistrictBlanksBelow(idx: Option<Index>, manual: bool, v: Page, p: Page)
    requires BlanksBelow(p.data, v.data)
    ensures BlanksBelow(DistrictChanged(idx, manual, v.data, p).data, v.data)
  {
    ClearBlanksBelow(p.data, v.data, DistrictDependents);
  }

  lemma CommunityBlanksBelow(idx: Option<Index>, manual: bool, v: Page, p: Page)
    requires BlanksBelow(p.data, v.data)
    ensures BlanksBelow(CommunityChanged(idx, manual, v.data, p).data, v.data)
  {
    ClearBlanksBelow(p.data, v.data, CommunityDependents);
  }

  lemma NameBlanksBelow(manual: bool, v: Page, p: Page)
    requires BlanksBelow(p.data, v.data)
    ensures BlanksBelow(NameChecked(manual, v, p).data, v.data)
  {
    assert SettlementName in RegionDependents;
    assert p.data[SettlementName := Blank] == Clear(p.data, {SettlementName});
    ClearBlanksBelow(p.data, v.data, {SettlementName});
  }

  /**
   * One round of effects after a render of `v` in which the values named
   * in `changed` differ from the previous render. The round only ever
   * blanks the lower levels and the coordinates, and does nothing in
   * manual entry or when nothing watched changed.
   */
  function Commit(changed: set<string>, idx: Option<Index>, manual: bool, v: Page): (r: Page)
    ensures BlanksBelow(r.data, v.data)
    ensures manual ==> r == v
    ensures !Fires(changed, RegionWatch + DistrictWatch + CommunityWatch + NameWatch) ==> r == v
  {
    var d := v.data;
    var a := if Fires(changed, RegionWatch) then RegionChanged(idx, manual, d, v) else v;
    RegionBlanksBelow(idx, manual, v, v);
    var b := if Fires(changed, DistrictWatch) then DistrictChanged(idx, manual, d, a) else a;
    DistrictBlanksBelow(idx, manual, v, a);
    var c := if Fires(changed, CommunityWatch) then CommunityChanged(idx, manual, d, b) else b;
    CommunityBlanksBelow(idx, manual, v, b);
    NameBlanksBelow(manual, v, c);
    if Fires(changed, NameWatch) then NameChecked(manual, v, c) else c
  }

  /** The round after a change of one field. */
  function AfterChange(field: string, idx: Option<Index>, manual: bool, p: Page): Page {
    Commit({field}, idx, manual, p)
  }

  /** Clearing a subset of what was already cleared changes nothing. */
  lemma ClearAbsorbs(r: Record, keys: set<string>, fewer: set<string>)
    requires fewer <= keys
    ensures Clear(Clear(r, keys), fewer) == Clear(r, keys)
  {
  }

  lemma RegionWatchFacts()
    ensures Region in RegionWatch && Region in DistrictWatch && Region in CommunityWatch
    ensures Region !in NameWatch
  {
    assert Region[8] == 'r';
    assert SettlementType[8] == 's' && SettlementName[8] == 's';
    assert SettlementList[0] == 's' && ManualEntry[0] == 'm';
  }

  /**
   * Changing the region fires the district and community effects too: the
   * draft's lower levels and coordinates are cleared, but the district and
   * community lists are recomputed from the levels the render still showed,
   * and the last list update wins.
   */
  lemma RegionCommit(idx: Option<Index>, manual: bool, v: Page)
    requires RegionReady(idx, manual, v.data)
    ensures var r := Commit({Region}, idx, manual, v);
      && r.data == Clear(v.data, RegionDependents)
      && r.options.districts == Districts(idx.value, RegionKey(v.data))
      && r.options.communities
         == (if DistrictReady(idx, manual, v.data) then Communities(idx.value, RegionKey(v.data), DistrictKey(v.data)) else {})
      && r.options.settlements
         == (if CommunityReady(idx, manual, v.data)
             then SettlementsAt(idx.value, RegionKey(v.data), DistrictKey(v.data), CommunityKey(v.data)) else [])
      && r.options.types == DistinctTypes(r.options.settlements)
  {
    RegionWatchFacts();
    var d := v.data;
    var a := RegionChanged(idx, manual, d, v);
    var b := DistrictChanged(idx, manual, d, a);
    var c := CommunityChanged(idx, manual, d, b);
    assert Commit({Region}, idx, manual, v) == c;
    ClearAbsorbs(v.data, RegionDependents, DistrictDependents);
    ClearAbsorbs(v.data, RegionDependents, CommunityDependents);
    assert DistinctTypes([]) == [];
  }

  lemma DistrictWatchFacts()
    ensures District in DistrictWatch && District in CommunityWatch
    ensures District !in RegionWatch && District !in NameWatch
  {
    assert District[8] == 'd' && Region[8] == 'r';
    assert SettlementType[8] == 's' && SettlementName[8] == 's';
    assert IndexLoaded[0] == 'n' && SettlementList[0] == 's' && ManualEntry[0] == 'm';
  }

  /**
   * Changing the district fires the community effect too, which lists the
   * settlements of the community the render still showed.
   */
  lemma DistrictCommit(idx: Option<Index>, manual: bool, v: Page)
    requires DistrictReady(idx, manual, v.data)
    ensures var r := Commit({District}, idx, manual, v);
      && r.data == Clear(v.data, DistrictDependents)
      && r.options.districts == v.options.districts
      && r.options.communities == Communities(idx.value, RegionKey(v.data), DistrictKey(v.data))
      && r.options.settlements
         == (if CommunityReady(idx, manual, v.data)
             then SettlementsAt(idx.value, RegionKey(v.data), DistrictKey(v.data), CommunityKey(v.data)) else [])
      && r.options.types == (if CommunityReady(idx, manual, v.data) then DistinctTypes(r.options.settlements) else [])
  {
    DistrictWatchFacts();
    var d := v.data;
    var b := DistrictChanged(idx, manual, d, v);
    var c := CommunityChanged(idx, manual, d, b);
    assert Commit({District}, idx, manual, v) == c;
    ClearAbsorbs(v.data, DistrictDependents, CommunityDependents);
  }

  /**
   * A region change settles in one round: in the next round, whatever else
   * is reported changed, the district, community and name effects find
   * their levels blank and change nothing.
   */
  lemma RegionCommitSettles(idx: Option<Index>, manual: bool, v: Page, changed: set<string>)
    requires RegionReady(idx, manual, v.data)
    requires Region !in changed && IndexLoaded !in changed && ManualEntry !in changed
    ensures var r := Commit({Region}, idx, manual, v);
      Commit(changed, idx, manual, r) == r
  {
    RegionCommit(idx, manual, v);
    var r := Commit({Region}, idx, manual, v);
    assert District in RegionDependents && SettlementType in RegionDependents;
    QuietBelowBlanks(changed, idx, manual, r);
  }

  /**
   * With no district and no type chosen, a round in which neither the
   * region, the index nor the mode changed leaves the page as it is.
   */
  lemma QuietBelowBlanks(changed: set<string>, idx: Option<Index>, manual: bool, w: Page)
    requires Get(w.data, District) == Blank && Get(w.data, SettlementType) == Blank
    requires Region !in changed && IndexLoaded !in changed && ManualEntry !in changed
    ensures Commit(changed, idx, manual, w) == w
  {
    assert !Fires(changed, RegionWatch);
    assert !DistrictReady(idx, manual, w.data) && !CommunityReady(idx, manual, w.data);
    assert NameChecked(manual, w, w) == w;
  }

  /**
   * Picking a region in the form and letting the page react leaves the new
   * region, empties every level below it and the coordinates whatever they
   * held, and offers exactly the region's districts.
   */
  lemma SelectRegionClearsBelow(st: FormState, v: string, idx: Index, o: Options)
    requires v != ""
    ensures
      var edited := HandleChange(st, Input(Region, v));
      var r := AfterChange(Region, Some(idx), false, Page(edited.data, o));
      && Get(r.data, Region) == Str(v)
      && (forall k :: k in RegionDependents ==> Get(r.data, k) == Blank)
      && r.options.districts == Districts(idx, v)
  {
    assert Region !in RegionDependents;
    var edited := HandleChange(st, Input(Region, v));
    assert Region in edited.data && edited.data[Region] == Str(v);
    var p := Page(edited.data, o);
    assert Truthy(Get(p.data, Region)) && RegionKey(p.data) == v;
    RegionCommit(Some(idx), false, p);
  }

  /**
   * The page reacts with its own manual-entry flag. That flag is never set
   * (the page's own change handler is not attached to any input), so every
   * change is handled as if manual entry were off, whatever the form shows.
   */
  function PageAfterChange(field: string, idx: Option<Index>, formManual: bool, p: Page): (r: Page)
    ensures BlanksBelow(r.data, p.data)
    ensures !Fires({field}, RegionWatch + DistrictWatch + CommunityWatch + NameWatch) ==> r == p
  {
    AfterChange(field, idx, false, p)
  }

  /** The form's manual-entry flag makes no difference to the page's reaction. */
  lemma PageIgnoresFormManual(field: string, idx: Option<Index>, p: Page)
    ensures PageAfterChange(field, idx, true, p) == PageAfterChange(field, idx, false, p)
    ensures PageAfterChange(field, idx, false, p) == PageAfterChangeIntended(field, idx, false, p)
  {
  }

  /** The evidently intended reaction: honour the form's manual-entry flag. */
  function PageAfterChangeIntended(field: string, idx: Option<Index>, formManual: bool, p: Page): (r: Page)
    ensures formManual ==> r == p
    ensures !formManual ==> r == PageAfterChange(field, idx, formManual, p)
  {
    AfterChange(field, idx, formManual, p)
  }

  lemma NameWatchFacts()
    ensures SettlementName in NameWatch
    ensures SettlementName !in RegionWatch + DistrictWatch + CommunityWatch
  {
    assert SettlementName[8] == 's';
    assert Region[8] == 'r' && District[8] == 'd' && Community[8] == 'c';
    assert IndexLoaded[0] == 'n' && ManualEntry[0] == 'm';
  }

  /**
   * As written, a settlement typed by hand in manual-entry mode is wiped:
   * with a type chosen and a name that no listed settlement carries (the
   * case manual entry exists for), the page clears the name.
   */
  lemma ManualNameWiped(idx: Option<Index>, p: Page)
    requires Truthy(Get(p.data, SettlementType)) && Truthy(Get(p.data, SettlementName))
    requires forall s :: s in p.options.settlements ==> !Selected(s, p.data)
    ensures Get(PageAfterChange(SettlementName, idx, true, p).data, SettlementName) == Blank
    ensures Get(PageAfterChangeIntended(SettlementName, idx, true, p).data, SettlementName) == Get(p.data, SettlementName)
  {
    NameWatchFacts();
    assert PageAfterChange(SettlementName, idx, true, p) == NameChecked(false, p, p);
  }
}

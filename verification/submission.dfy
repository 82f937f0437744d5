/**
 * The duplicate-aware submission of the add-inventory page
 * (pages/add_inventory.tsx): validate, look for the same record among the
 * approved rows and then among the pending rows, and only then insert the
 * draft, with its numeric fields coerced, into the pending rows.
 */
module Submission {
  import opened Wrappers
  import opened JsText
  import opened JsValue
  import opened Form
  import opened Validation

  const Id := "id"

  /** The fields always compared when looking for an existing record. */
  const KeyFields: set<string> := {Region, District, Community, SettlementType, SettlementName, CaseSignature}

  /** The lookup key: the key fields, plus the year only when one is given. */
  function MatchKey(d: Record): (key: map<string, Value>)
    ensures key.Keys == KeyFields + (if Truthy(Get(d, InventoryYear)) then {InventoryYear} else {})
    ensures forall k :: k in key ==> key[k] == Get(d, k)
  {
    var base := map k | k in KeyFields :: Get(d, k);
    if Truthy(Get(d, InventoryYear)) then base[InventoryYear := Get(d, InventoryYear)] else base
  }

  /** The store's equality filter: every key field's column reads as the queried text. */
  predicate RowMatches(row: Record, key: map<string, Value>) {
    forall k :: k in key ==> ToStr(Get(row, k)) == ToStr(key[k])
  }

  /**
   * Without a year in the draft, its key matches a row whatever year that
   * row carries: records differing only in an unset year count as the same.
   */
  lemma YearlessKeyIgnoresYear(d: Record, row: Record, y: Value)
    requires !Truthy(Get(d, InventoryYear))
    ensures RowMatches(row[InventoryYear := y], MatchKey(d)) <==> RowMatches(row, MatchKey(d))
  {
    var key := MatchKey(d);
    assert InventoryYear !in key;
    assert forall k :: k in key ==> Get(row[InventoryYear := y], k) == Get(row, k);
  }

  /** No row matches the key. */
  predicate Unmatched(rows: seq<Record>, key: map<string, Value>) {
    forall i :: 0 <= i < |rows| ==> !RowMatches(rows[i], key)
  }

  /** The position of the first row from `start` on matching the key, if any. */
  function FirstMatchFrom(rows: seq<Record>, key: map<string, Value>, start: nat): (r: Option<nat>)
    requires start <= |rows|
    ensures r.None? <==> forall i :: start <= i < |rows| ==> !RowMatches(rows[i], key)
    ensures r.Some? ==>
      && start <= r.value < |rows| && RowMatches(rows[r.value], key)
      && forall j :: start <= j < r.value ==> !RowMatches(rows[j], key)
    decreases |rows| - start
  {
    if start == |rows| then None
    else if RowMatches(rows[start], key) then Some(start)
    else FirstMatchFrom(rows, key, start + 1)
  }

  /** The position of the first row matching the key, if any. */
  function FirstMatchAt(rows: seq<Record>, key: map<string, Value>): (r: Option<nat>)
    ensures r.None? <==> Unmatched(rows, key)
    ensures r.Some? ==>
      && r.value < |rows| && RowMatches(rows[r.value], key)
      && forall j :: 0 <= j < r.value ==> !RowMatches(rows[j], key)
  {
    FirstMatchFrom(rows, key, 0)
  }

  /** The existing record a lookup reports: any matching row blocks the insert. */
  function FirstMatch(rows: seq<Record>, key: map<string, Value>): (r: Option<Record>)
    ensures r.None? <==> Unmatched(rows, key)
    ensures r.Some? ==> r.value in rows && RowMatches(r.value, key)
  {
    match FirstMatchAt(rows, key)
    case Some(i) => Some(rows[i])
    case None => None
  }

  /** The matching rows, in order. */
  function Matching(rows: seq<Record>, key: map<string, Value>): (r: seq<Record>)
    ensures |r| <= |rows|
  {
    if |rows| == 0 then []
    else (if RowMatches(rows[0], key) then [rows[0]] else []) + Matching(rows[1..], key)
  }

  /** The matching rows are exactly the rows that match. */
  lemma {:induction false} MatchingMembers(rows: seq<Record>, key: map<string, Value>)
    ensures forall x :: x in Matching(rows, key) <==> x in rows && RowMatches(x, key)
  {
    if |rows| > 0 {
      MatchingMembers(rows[1..], key);
      assert rows == [rows[0]] + rows[1..];
    }
  }

  /**
   * The lookup as written (`maybeSingle()` with its error ignored): a row
   * comes back only when exactly one row matches; two or more matching rows
   * produce an error, whose data is read as "no record".
   */
  function SingleMatch(rows: seq<Record>, key: map<string, Value>): (r: Option<Record>)
    ensures r.Some? ==> r.value in rows && RowMatches(r.value, key)
    ensures r.Some? <==> |Matching(rows, key)| == 1
  {
    var m := Matching(rows, key);
    MatchingMembers(rows, key);
    if |m| == 1 then Some(m[0]) else None
  }

  /** The numeric fields coerced before insertion: two read as decimals, four as integers. */
  const DecimalFields: set<string> := {Latitude, Longitude}
  const IntegerFields: set<string> := {MarkType, PagesCount, StartPage, InventoryYear}
  const NumericFields: set<string> := DecimalFields + IntegerFields

  /** `v ? parseFloat(v) : null`; NaN is sent as null. */
  function FloatOrNull(v: Value): (r: Value)
    ensures !Truthy(v) ==> r == Null
    ensures Truthy(v) && ParseFloatJS(ToStr(v)).Some? ==> r == Num(ParseFloatJS(ToStr(v)).value)
    ensures Truthy(v) && ParseFloatJS(ToStr(v)).None? ==> r == Null
  {
    if !Truthy(v) then Null
    else match ParseFloatJS(ToStr(v))
      case Some(l) => Num(l)
      case None => Null
  }

  /** `v ? parseInt(v) : null`; NaN is sent as null. */
  function IntOrNull(v: Value): (r: Value)
    ensures !Truthy(v) ==> r == Null
    ensures Truthy(v) && ParseIntJS(ToStr(v)).Some? ==> r == Int(ParseIntJS(ToStr(v)).value)
    ensures Truthy(v) && ParseIntJS(ToStr(v)).None? ==> r == Null
  {
    if !Truthy(v) then Null
    else match ParseIntJS(ToStr(v))
      case Some(i) => Int(i)
      case None => Null
  }

  /** The coerced value of one numeric field. */
  function Coerced(d: Record, k: string): Value {
    if k in DecimalFields then FloatOrNull(Get(d, k)) else IntOrNull(Get(d, k))
  }

  /**
   * The inserted row: the draft with the six numeric fields replaced by
   * their parsed numbers, null when empty; every other field unchanged.
   */
  function ToInsert(d: Record): (r: Record)
    ensures r.Keys == d.Keys + NumericFields
    ensures forall k :: k in d && k !in NumericFields ==> r[k] == d[k]
    ensures forall k :: k in DecimalFields ==> r[k] == FloatOrNull(Get(d, k))
  {
    map k | k in d.Keys + NumericFields :: if k in NumericFields then Coerced(d, k) else d[k]
  }

  /** The four integer fields are read with `parseInt`. */
  lemma IntegerFieldsParsed(d: Record)
    ensures forall k :: k in IntegerFields ==> ToInsert(d)[k] == IntOrNull(Get(d, k))
  {
    assert DecimalFields !! IntegerFields by {
      assert forall k :: k in IntegerFields ==> k[0] != 'l';
    }
  }

  /**
   * For a draft that passed the gate, the page counts and the year are
   * stored as numbers exactly when given: positive page numbers, a year
   * from 1500 to 2000, and null only when the field was left empty.
   */
  lemma InsertedNumbersOfValidDraft(d: Record)
    requires Validate(d).None?
    ensures var r := ToInsert(d);
      && (r[PagesCount] == Null <==> !Truthy(Get(d, PagesCount)))
      && (r[PagesCount] != Null ==> r[PagesCount].Int? && r[PagesCount].i > 0)
      && (r[StartPage] == Null <==> !Truthy(Get(d, StartPage)))
      && (r[StartPage] != Null ==> r[StartPage].Int? && r[StartPage].i > 0)
      && (r[InventoryYear] == Null <==> !Truthy(Get(d, InventoryYear)))
      && (r[InventoryYear] != Null ==> r[InventoryYear].Int? && 1500 <= r[InventoryYear].i <= 2000)
  {
    var r := ToInsert(d);
    IntegerFieldsParsed(d);
    assert r[PagesCount] == IntOrNull(Get(d, PagesCount));
    assert r[StartPage] == IntOrNull(Get(d, StartPage));
    assert r[InventoryYear] == IntOrNull(Get(d, InventoryYear));
  }

  datatype Outcome =
    | Invalid(message: string)
    | DuplicateApproved(url: string)
    | DuplicatePending
    | SaveFailed
    | Saved

  /** What the user is told, and the pending rows afterwards. */
  datatype Submitted = Submitted(outcome: Outcome, pending: seq<Record>)

  /** The link to an approved record. */
  function RecordUrl(row: Record): string {
    "/records/" + ToStr(Get(row, Id))
  }

  /**
   * The decision once the gate and both lookups have answered: `verdict`
   * is the gate's message, `row` the coerced draft and `insertOk` whether
   * the store accepts the insert.
   */
  function Decide(verdict: Option<string>, row: Record, approvedHit: Option<Record>, pendingHit: bool,
                  pending: seq<Record>, insertOk: bool): (r: Submitted)
    ensures verdict.Some? ==> r == Submitted(Invalid(verdict.value), pending)
    ensures r.pending == pending || r.pending == pending + [row]
    ensures r.pending != pending <==> verdict.None? && approvedHit.None? && !pendingHit && insertOk
    ensures r.pending != pending ==> r.outcome == Saved
  {
    match verdict
    case Some(m) => Submitted(Invalid(m), pending)
    case None =>
      if approvedHit.Some? then Submitted(DuplicateApproved(RecordUrl(approvedHit.value)), pending)
      else if pendingHit then Submitted(DuplicatePending, pending)
      else if !insertOk then Submitted(SaveFailed, pending)
      else Submitted(Saved, pending + [row])
  }

  /**
   * Submission: an invalid draft is refused with the gate's message; a
   * match among the approved rows is reported with its link; a match among
   * the pending rows is reported; otherwise the coerced draft is appended
   * to the pending rows, if the store accepts it. Nothing else inserts.
   */
  function Submit(d: Record, approved: seq<Record>, pending: seq<Record>, insertOk: bool): (r: Submitted)
    ensures Validate(d).Some? ==> r == Submitted(Invalid(Validate(d).value), pending)
    ensures r.pending == pending || r.pending == pending + [ToInsert(d)]
    ensures r.pending != pending <==>
      Validate(d).None? && Unmatched(approved, MatchKey(d)) && Unmatched(pending, MatchKey(d)) && insertOk
    ensures r.pending != pending ==> r.outcome == Saved
  {
    var key := MatchKey(d);
    Decide(Validate(d), ToInsert(d), FirstMatch(approved, key), FirstMatch(pending, key).Some?, pending, insertOk)
  }

  /** A match among the approved rows is reported with the link to the first such row. */
  lemma SubmitReportsApprovedMatch(d: Record, approved: seq<Record>, pending: seq<Record>, insertOk: bool)
    requires Validate(d).None? && !Unmatched(approved, MatchKey(d))
    ensures exists i :: (0 <= i < |approved| && RowMatches(approved[i], MatchKey(d))
      && (forall j :: 0 <= j < i ==> !RowMatches(approved[j], MatchKey(d)))
      && Submit(d, approved, pending, insertOk).outcome == DuplicateApproved(RecordUrl(approved[i])))
  {
    var i := FirstMatchAt(approved, MatchKey(d)).value;
    assert Submit(d, approved, pending, insertOk).outcome == DuplicateApproved(RecordUrl(approved[i]));
  }

  /** Without an approved match, a match among the pending rows is reported as pending. */
  lemma SubmitReportsPendingMatch(d: Record, approved: seq<Record>, pending: seq<Record>, insertOk: bool)
    requires Validate(d).None? && Unmatched(approved, MatchKey(d)) && !Unmatched(pending, MatchKey(d))
    ensures Submit(d, approved, pending, insertOk) == Submitted(DuplicatePending, pending)
  {
  }

  /** The submission as written, with both lookups through `maybeSingle()`. */
  function SubmitAsWritten(d: Record, approved: seq<Record>, pending: seq<Record>, insertOk: bool): (r: Submitted)
    ensures Validate(d).Some? ==> r == Submitted(Invalid(Validate(d).value), pending)
    ensures r.pending == pending || r.pending == pending + [ToInsert(d)]
    ensures r.pending != pending <==>
      Validate(d).None? && |Matching(approved, MatchKey(d))| != 1 && |Matching(pending, MatchKey(d))| != 1 && insertOk
    ensures r.pending != pending ==> r.outcome == Saved
  {
    var key := MatchKey(d);
    Decide(Validate(d), ToInsert(d), SingleMatch(approved, key), SingleMatch(pending, key).Some?, pending, insertOk)
  }

  /** Two matching rows: one lookup finds the first, the other finds none. */
  lemma LookupsOnTwoMatches(x: Record, y: Record, key: map<string, Value>)
    requires RowMatches(x, key) && RowMatches(y, key)
    ensures FirstMatch([x, y], key) == Some(x)
    ensures SingleMatch([x, y], key) == None
    ensures SingleMatch([], key) == None && FirstMatch([], key) == None
  {
    assert [x, y][1..] == [y];
    assert [y][1..] == [];
    assert Matching([y], key) == [y];
    assert Matching([x, y], key) == [x, y];
  }

  /** As written, two matching approved rows leave both lookups empty-handed. */
  lemma AsWrittenSeesNoMatch(d: Record, x: Record, y: Record)
    requires Validate(d).None?
    requires RowMatches(x, MatchKey(d)) && RowMatches(y, MatchKey(d))
    ensures SubmitAsWritten(d, [x, y], [], true) == Decide(None, ToInsert(d), None, false, [], true)
  {
    LookupsOnTwoMatches(x, y, MatchKey(d));
  }

  /** A valid, unmatched draft is the only pending row after an accepted insert into none. */
  lemma DecideSavesInto(inserted: Record)
    ensures Decide(None, inserted, None, false, [], true) == Submitted(Saved, [inserted])
  {
  }

  /**
   * As written, two approved rows matching a valid draft hide each other:
   * the lookup reports no record, and the draft is inserted again. Two
   * approved records that differ only in their years are such rows for a
   * draft without a year.
   */
  lemma TwoMatchesLetDuplicateThrough(d: Record, x: Record, y: Record)
    requires Validate(d).None?
    requires RowMatches(x, MatchKey(d)) && RowMatches(y, MatchKey(d))
    ensures SubmitAsWritten(d, [x, y], [], true) == Submitted(Saved, [ToInsert(d)])
  {
    AsWrittenSeesNoMatch(d, x, y);
    DecideSavesInto(ToInsert(d));
  }

  /** With the first-match lookup, the same two rows are reported and nothing is inserted. */
  lemma TwoMatchesReported(d: Record, x: Record, y: Record)
    requires Validate(d).None?
    requires RowMatches(x, MatchKey(d)) && RowMatches(y, MatchKey(d))
    ensures Submit(d, [x, y], [], true) == Submitted(DuplicateApproved(RecordUrl(x)), [])
  {
    var key := MatchKey(d);
    calc {
      Submit(d, [x, y], [], true);
      Decide(Validate(d), ToInsert(d), FirstMatch([x, y], key), FirstMatch([], key).Some?, [], true);
      { LookupsOnTwoMatches(x, y, key); }
      Decide(None, ToInsert(d), Some(x), false, [], true);
    }
  }
}

/**
 * The moderation page (pages/admin_approve.tsx): pending rows are shown one
 * at a time, oldest first, in the editable form; a moderator moves between
 * them, accepts one (it is copied, prepared, into the approved rows and
 * deleted from the pending rows) or rejects one (it is deleted).
 */
module Moderation {
  import opened Wrappers
  import opened JsText
  import opened JsValue
  import opened Form
  import opened Validation
  import opened Submission

  const Approved := "approved"
  const CreatedBy := "created_by"

  /** The coordinates the page remembers for the record on screen. */
  datatype Coords = Coords(latitude: Value, longitude: Value)

  function CoordsOf(r: Record): Coords {
    Coords(Get(r, Latitude), Get(r, Longitude))
  }

  /**
   * The page state: the pending rows as loaded, the position shown, the
   * form's current data and the remembered coordinates.
   */
  datatype Queue = Queue(records: seq<Record>, index: nat, form: Record, original: Coords)

  /** The position is on a record, or 0 when there is none. */
  predicate Valid(q: Queue) {
    if |q.records| == 0 then q.index == 0 else q.index < |q.records|
  }

  /** `c` is what the page remembers for `r`: its coordinates read as they are, or as `v || ''`. */
  predicate RemembersCoords(c: Coords, r: Record) {
    && (c.latitude == Get(r, Latitude) || c.latitude == OrBlank(Get(r, Latitude)))
    && (c.longitude == Get(r, Longitude) || c.longitude == OrBlank(Get(r, Longitude)))
  }

  /** The remembered coordinates belong to the record on screen. */
  predicate OwnCoords(q: Queue) {
    0 < |q.records| && q.index < |q.records| ==> RemembersCoords(q.original, q.records[q.index])
  }

  function First(rows: seq<Record>): Record {
    if |rows| > 0 then rows[0] else map[]
  }

  /**
   * The page once the pending rows are fetched: the first row is shown,
   * with its location fields read as `v || ''`, and its coordinates are
   * remembered the same way.
   */
  function Load(rows: seq<Record>): (q: Queue)
    ensures Valid(q) && OwnCoords(q)
    ensures q.records == rows && q.index == 0
    ensures q.form.Keys == First(rows).Keys + LocationFields
    ensures forall k :: k in LocationFields ==> q.form[k] == OrBlank(Get(First(rows), k))
    ensures forall k :: k in First(rows) && k !in LocationFields ==> q.form[k] == First(rows)[k]
  {
    var first := First(rows);
    Queue(rows, 0, first + map k | k in LocationFields :: OrBlank(Get(first, k)),
          Coords(OrBlank(Get(first, Latitude)), OrBlank(Get(first, Longitude))))
  }

  /** Showing another record: out-of-range positions are ignored. */
  function GoToRecord(q: Queue, i: int): (r: Queue)
    ensures Valid(q) ==> Valid(r)
    ensures OwnCoords(q) ==> OwnCoords(r)
    ensures r.records == q.records
    ensures !(0 <= i < |q.records|) ==> r == q
    ensures 0 <= i < |q.records| ==> r.index == i && r.form == q.records[i]
    ensures 0 <= i < |q.records| ==> r.original == CoordsOf(q.records[i])
  {
    if 0 <= i < |q.records| then
      Queue(q.records, i, q.records[i], CoordsOf(q.records[i]))
    else q
  }

  /** The "previous" button is disabled on the first record. */
  predicate PrevDisabled(q: Queue) {
    q.index == 0
  }

  /** The "next" button is disabled on the last record. */
  predicate NextDisabled(q: Queue) {
    q.index == |q.records| - 1
  }

  /** A navigation button is disabled exactly when pressing it would do nothing. */
  lemma ButtonsDisabledIffNoMove(q: Queue)
    requires Valid(q) && |q.records| > 0
    ensures PrevDisabled(q) <==> GoToRecord(q, q.index - 1) == q
    ensures NextDisabled(q) <==> GoToRecord(q, q.index + 1) == q
  {
    if !PrevDisabled(q) {
      assert GoToRecord(q, q.index - 1).index != q.index;
    }
    if !NextDisabled(q) {
      assert GoToRecord(q, q.index + 1).index != q.index;
    }
  }

  /** The empty inputs `parseIntegerOrNull` and `parseFloatOrNull` map to null before parsing. */
  predicate Absent(v: Value) {
    v == Null || v == Blank
  }

  /** `parseIntegerOrNull`: absent or unparseable input is null, otherwise `parseInt(v, 10)`. */
  function IntegerOrNull(v: Value): (r: Value)
    ensures Absent(v) ==> r == Null
    ensures r == Null || r.Int?
    ensures r.Int? ==> ParseIntJS(ToStr(v)) == Some(r.i)
    ensures !Absent(v) && ParseIntJS(ToStr(v)).Some? ==> r.Int?
  {
    if Absent(v) then Null
    else match ParseIntJS(ToStr(v))
      case Some(i) => Int(i)
      case None => Null
  }

  /** An integer survives the integer coercion unchanged. */
  lemma IntegerOrNullOfInt(i: int)
    ensures IntegerOrNull(Int(i)) == Int(i)
  {
    ParseIntOfIntToString(i, []);
    assert IntToString(i) + [] == ToStr(Int(i));
    assert !Absent(Int(i));
  }

  /** Coercing twice is coercing once. */
  lemma IntegerOrNullIdempotent(v: Value)
    ensures IntegerOrNull(IntegerOrNull(v)) == IntegerOrNull(v)
  {
    var r := IntegerOrNull(v);
    if r.Int? {
      IntegerOrNullOfInt(r.i);
    }
  }

  /**
   * The moderation page's integer coercion agrees with the add-inventory
   * page's `v ? parseInt(v) : null` on every truthy value.
   */
  lemma IntegerCoercionsAgreeOnTruthy(v: Value)
    requires Truthy(v)
    ensures IntegerOrNull(v) == IntOrNull(v)
  {
    assert !Absent(v);
  }

  /** A numeric zero is kept by the moderation page's coercion and turned into null by the add-inventory page's. */
  lemma IntegerCoercionsDifferOnZero()
    ensures IntegerOrNull(Int(0)) == Int(0)
    ensures IntOrNull(Int(0)) == Null
  {
    IntegerOrNullOfInt(0);
  }

  /** `parseFloatOrNull`, and `parseLatLng` which computes the same: absent or unparseable input is null. */
  function DecimalOrNull(v: Value): (r: Value)
    ensures Absent(v) ==> r == Null
    ensures r == Null || (r.Num? && ParseFloatJS(ToStr(v)) == Some(r.lexeme))
    ensures !Absent(v) && ParseFloatJS(ToStr(v)).Some? ==> r.Num?
  {
    if Absent(v) then Null
    else match ParseFloatJS(ToStr(v))
      case Some(l) => Num(l)
      case None => Null
  }

  /** `a ?? b` on the two coercions' results. */
  function OrElse(a: Value, b: Value): (r: Value)
    ensures r == Null <==> a == Null && b == Null
    ensures a != Null ==> r == a
    ensures a == Null ==> r == b
  {
    if a != Null then a else b
  }

  /** The fields the prepared record sets itself. */
  const PreparedFields: set<string> := {Approved, CreatedBy, Latitude, Longitude, PagesCount, InventoryYear, StartPage}

  /** The account recorded as the author: the user's id, or null. */
  function Author(user: Option<string>): Value {
    if user.Some? && user.value != "" then Str(user.value) else Null
  }

  function PreparedValue(form: Record, original: Coords, user: Option<string>, k: string): Value {
    if k == Approved then Bool(true)
    else if k == CreatedBy then Author(user)
    else if k == Latitude then OrElse(DecimalOrNull(Get(form, Latitude)), DecimalOrNull(original.latitude))
    else if k == Longitude then OrElse(DecimalOrNull(Get(form, Longitude)), DecimalOrNull(original.longitude))
    else IntegerOrNull(Get(form, k))
  }

  /**
   * The record copied into the approved rows: the form without
   * `is_ukrainian_archive`, with the fields of `PreparedFields` set.
   */
  function Prepare(form: Record, original: Coords, user: Option<string>): (r: Record)
    ensures r.Keys == (form.Keys - {IsUkrainianArchive}) + PreparedFields
    ensures IsUkrainianArchive !in r
    ensures forall k :: k in form && k != IsUkrainianArchive && k !in PreparedFields ==> r[k] == form[k]
  {
    assert IsUkrainianArchive !in PreparedFields by {
      assert IsUkrainianArchive[1] == 's';
      assert forall k :: k in PreparedFields ==> k[1] != 's';
    }
    map k | k in (form.Keys - {IsUkrainianArchive}) + PreparedFields ::
      if k in PreparedFields then PreparedValue(form, original, user, k) else form[k]
  }

  /**
   * The prepared record is approved and authored; its coordinates are the
   * edited ones, or the remembered ones where the edited ones read as null;
   * the page counts and the year are integer-coerced, and `mark_type` is
   * copied as it stands.
   */
  lemma PreparedValues(form: Record, original: Coords, user: Option<string>)
    ensures var r := Prepare(form, original, user);
      && r[Approved] == Bool(true)
      && r[CreatedBy] == Author(user)
      && r[Latitude] == OrElse(DecimalOrNull(Get(form, Latitude)), DecimalOrNull(original.latitude))
      && r[Longitude] == OrElse(DecimalOrNull(Get(form, Longitude)), DecimalOrNull(original.longitude))
      && r[PagesCount] == IntegerOrNull(Get(form, PagesCount))
      && r[InventoryYear] == IntegerOrNull(Get(form, InventoryYear))
      && r[StartPage] == IntegerOrNull(Get(form, StartPage))
      && (MarkType in form ==> r[MarkType] == form[MarkType])
  {
    assert Approved[0] == 'a' && CreatedBy[0] == 'c' && Latitude[0] == 'l' && Longitude[0] == 'l';
    assert Latitude[1] == 'a' && Longitude[1] == 'o';
    assert PagesCount[0] == 'p' && InventoryYear[0] == 'i' && StartPage[0] == 'i';
    assert MarkType !in PreparedFields by {
      assert forall k :: k in PreparedFields ==> k[0] != 'm';
    }
  }

  /** Both stores: the approved rows and the pending rows. */
  datatype Store = Store(approved: seq<Record>, pending: seq<Record>)

  /** `.delete().eq('id', id)`: the rows whose id does not read as `id` stay, in order. */
  function DeleteById(rows: seq<Record>, id: Value): (r: seq<Record>)
    ensures forall x :: x in r <==> x in rows && ToStr(Get(x, Id)) != ToStr(id)
    ensures |r| <= |rows|
  {
    if |rows| == 0 then []
    else
      assert rows == [rows[0]] + rows[1..];
      (if ToStr(Get(rows[0], Id)) != ToStr(id) then [rows[0]] else []) + DeleteById(rows[1..], id)
  }

  /** `rows.filter((_, j) => j !== i)`, walked from the front. */
  function WithoutPosition<T>(rows: seq<T>, i: int): (r: seq<T>)
    ensures |r| == if 0 <= i < |rows| then |rows| - 1 else |rows|
  {
    if |rows| == 0 then []
    else (if i == 0 then [] else [rows[0]]) + WithoutPosition(rows[1..], i - 1)
  }

  /** Dropping a position outside the sequence drops nothing. */
  lemma {:induction false} WithoutPositionOutside<T>(rows: seq<T>, i: int)
    requires i < 0 || i >= |rows|
    ensures WithoutPosition(rows, i) == rows
  {
    if |rows| > 0 {
      WithoutPositionOutside(rows[1..], i - 1);
      assert rows == [rows[0]] + rows[1..];
    }
  }

  /** Dropping a position is cutting the sequence around it. */
  lemma {:induction false} WithoutPositionIsCut<T>(rows: seq<T>, i: int)
    requires 0 <= i < |rows|
    ensures WithoutPosition(rows, i) == rows[..i] + rows[i + 1..]
  {
    var tail := rows[1..];
    if i == 0 {
      WithoutPositionOutside(tail, -1);
      assert WithoutPosition(rows, i) == tail;
      assert rows[..0] + rows[1..] == tail;
    } else {
      calc {
        WithoutPosition(rows, i);
        [rows[0]] + WithoutPosition(tail, i - 1);
        { WithoutPositionIsCut(tail, i - 1); }
        [rows[0]] + (tail[..i - 1] + tail[i..]);
        { assert tail[..i - 1] == rows[1..i] && tail[i..] == rows[i + 1..]; }
        ([rows[0]] + rows[1..i]) + rows[i + 1..];
        { assert [rows[0]] + rows[1..i] == rows[..i]; }
        rows[..i] + rows[i + 1..];
      }
    }
  }

  /** The position after a removal: the same one, or the new last one. */
  function NextIndex(index: nat, remaining: nat): (r: nat)
    ensures remaining == 0 ==> r == 0
    ensures remaining > 0 ==> r < remaining && (r == index || (index >= remaining && r == remaining - 1))
  {
    if remaining == 0 then 0 else if index >= remaining then remaining - 1 else index
  }

  /**
   * The queue once the current record is gone, as written: the remembered
   * coordinates are left as they were.
   */
  function RemoveCurrentAsWritten(q: Queue): (r: Queue)
    requires Valid(q) && |q.records| > 0
    ensures Valid(r)
    ensures r.records == q.records[..q.index] + q.records[q.index + 1..]
    ensures r.original == q.original
    ensures |r.records| == 0 ==> r.form == map[]
    ensures |r.records| > 0 ==> r.form == r.records[r.index]
    ensures q.index + 1 < |q.records| ==> r.index == q.index && r.form == q.records[q.index + 1]
    ensures 0 < q.index == |q.records| - 1 ==> r.index == q.index - 1 && r.form == q.records[q.index - 1]
  {
    WithoutPositionIsCut(q.records, q.index);
    var rest := WithoutPosition(q.records, q.index);
    var i := NextIndex(q.index, |rest|);
    Queue(rest, i, if |rest| == 0 then map[] else rest[i], q.original)
  }

  /**
   * The queue once the current record is gone, with the remembered
   * coordinates taken from the record now shown, as `GoToRecord` does: the
   * following record slides into place, or the new last record is shown,
   * or the form is emptied when none is left.
   */
  function RemoveCurrent(q: Queue): (r: Queue)
    requires Valid(q) && |q.records| > 0
    ensures Valid(r) && OwnCoords(r)
    ensures r.records == q.records[..q.index] + q.records[q.index + 1..]
    ensures |r.records| == 0 ==> r.form == map[]
    ensures |r.records| > 0 ==> r.form == r.records[r.index]
    ensures q.index + 1 < |q.records| ==> r.index == q.index && r.form == q.records[q.index + 1]
    ensures 0 < q.index == |q.records| - 1 ==> r.index == q.index - 1 && r.form == q.records[q.index - 1]
    ensures |r.records| > 0 ==> r.original == CoordsOf(r.records[r.index])
  {
    var w := RemoveCurrentAsWritten(q);
    if |w.records| == 0 then w else w.(original := CoordsOf(w.form))
  }

  /** What the moderator is told. */
  datatype Notice =
    | NoRecord
    | AlreadyExists
    | InsertFailed
    | DeleteFailed
    | Accepted
    | Cancelled
    | RejectFailed
    | Rejected
    | AllProcessed

  datatype Moderated = Moderated(queue: Queue, store: Store, notice: Notice)

  /** The notice after a removal: emptying the queue replaces whatever was said before. */
  function Finally(rest: Queue, said: Notice): Notice {
    if |rest.records| == 0 then AllProcessed else said
  }

  /**
   * Accepting the record on screen, given the approved-row lookup's answer
   * and the queue that follows the removal.
   */
  function AcceptWith(q: Queue, s: Store, user: Option<string>, hit: Option<Record>,
                      insertOk: bool, deleteOk: bool, next: Queue): Moderated
  {
    if |q.records| == 0 then Moderated(q, s, NoRecord)
    else if hit.Some? then Moderated(q, s, AlreadyExists)
    else if !insertOk then Moderated(q, s, InsertFailed)
    else
      var approved := s.approved + [Prepare(q.form, q.original, user)];
      if deleteOk then
        Moderated(next, Store(approved, DeleteById(s.pending, Get(q.form, Id))), Finally(next, Accepted))
      else
        Moderated(next, Store(approved, s.pending), Finally(next, DeleteFailed))
  }

  /**
   * Accepting: a match among the approved rows, or a failed insert, changes
   * nothing; otherwise the prepared record is appended to the approved rows
   * and the current record leaves the queue, whether or not the pending row
   * could be deleted.
   */
  function Accept(q: Queue, s: Store, user: Option<string>, insertOk: bool, deleteOk: bool): (r: Moderated)
    requires Valid(q)
    ensures Valid(r.queue) && (OwnCoords(q) ==> OwnCoords(r.queue))
    ensures |q.records| == 0 ==> r == Moderated(q, s, NoRecord)
    ensures |q.records| > 0 && !Unmatched(s.approved, MatchKey(q.form)) ==> r == Moderated(q, s, AlreadyExists)
    ensures |q.records| > 0 && Unmatched(s.approved, MatchKey(q.form)) && !insertOk ==> r == Moderated(q, s, InsertFailed)
    ensures r.store.approved == s.approved || r.store.approved == s.approved + [Prepare(q.form, q.original, user)]
    ensures r.store.approved != s.approved <==> |q.records| > 0 && Unmatched(s.approved, MatchKey(q.form)) && insertOk
    ensures r.store.approved != s.approved ==> r.queue == RemoveCurrent(q)
    ensures r.store.approved != s.approved ==>
      r.store.pending == if deleteOk then DeleteById(s.pending, Get(q.form, Id)) else s.pending
    ensures r.store.approved == s.approved ==> r.store.pending == s.pending
  {
    if |q.records| == 0 then Moderated(q, s, NoRecord)
    else AcceptWith(q, s, user, FirstMatch(s.approved, MatchKey(q.form)), insertOk, deleteOk, RemoveCurrent(q))
  }

  /** Accepting as written: the lookup through `maybeSingle()` and the remembered coordinates kept. */
  function AcceptAsWritten(q: Queue, s: Store, user: Option<string>, insertOk: bool, deleteOk: bool): (r: Moderated)
    requires Valid(q)
    ensures Valid(r.queue) && r.queue.original == q.original
    ensures |q.records| == 0 ==> r == Moderated(q, s, NoRecord)
    ensures |q.records| > 0 && |Matching(s.approved, MatchKey(q.form))| == 1 ==> r == Moderated(q, s, AlreadyExists)
    ensures |q.records| > 0 && |Matching(s.approved, MatchKey(q.form))| != 1 && !insertOk ==>
      r == Moderated(q, s, InsertFailed)
    ensures r.store.approved == s.approved || r.store.approved == s.approved + [Prepare(q.form, q.original, user)]
    ensures r.store.approved != s.approved <==>
      |q.records| > 0 && |Matching(s.approved, MatchKey(q.form))| != 1 && insertOk
    ensures r.store.approved != s.approved ==> r.queue == RemoveCurrentAsWritten(q)
    ensures r.store.approved != s.approved ==>
      r.store.pending == if deleteOk then DeleteById(s.pending, Get(q.form, Id)) else s.pending
    ensures r.store.approved == s.approved ==> r.store.pending == s.pending
  {
    if |q.records| == 0 then Moderated(q, s, NoRecord)
    else AcceptWith(q, s, user, SingleMatch(s.approved, MatchKey(q.form)), insertOk, deleteOk, RemoveCurrentAsWritten(q))
  }

  /**
   * A pending row that cannot be deleted still leaves the local queue, so
   * the page and the store disagree until the next load.
   */
  lemma DeleteFailureStillDropsRecord(q: Queue, s: Store, user: Option<string>)
    requires Valid(q) && |q.records| > 0 && Unmatched(s.approved, MatchKey(q.form))
    ensures var r := Accept(q, s, user, true, false);
      && r.queue.records == q.records[..q.index] + q.records[q.index + 1..]
      && r.store.pending == s.pending
      && (|q.records| == 1 ==> r.notice == AllProcessed)
      && (|q.records| > 1 ==> r.notice == DeleteFailed)
  {
  }

  /**
   * Rejecting, given the queue that follows the removal: nothing changes
   * unless the moderator confirms and the delete succeeds.
   */
  function RejectWith(q: Queue, s: Store, confirmed: bool, deleteOk: bool, next: Queue): Moderated {
    if !confirmed then Moderated(q, s, Cancelled)
    else if !deleteOk then Moderated(q, s, RejectFailed)
    else if |q.records| == 0 then Moderated(q, s, NoRecord)
    else Moderated(next, s.(pending := DeleteById(s.pending, Get(q.form, Id))), Finally(next, Rejected))
  }

  /**
   * Rejecting: nothing changes unless the moderator confirms and the delete
   * succeeds; then the row is deleted and leaves the queue, and the
   * remembered coordinates are those of the record now shown. The approved
   * rows are never touched.
   */
  function Reject(q: Queue, s: Store, confirmed: bool, deleteOk: bool): (r: Moderated)
    requires Valid(q)
    ensures r.store.approved == s.approved
    ensures Valid(r.queue) && (OwnCoords(q) ==> OwnCoords(r.queue))
    ensures !confirmed ==> r == Moderated(q, s, Cancelled)
    ensures confirmed && !deleteOk ==> r == Moderated(q, s, RejectFailed)
    ensures confirmed && deleteOk && |q.records| > 0 ==>
      r.queue == RemoveCurrent(q) && r.store.pending == DeleteById(s.pending, Get(q.form, Id))
  {
    if |q.records| == 0 then RejectWith(q, s, confirmed, deleteOk, q)
    else RejectWith(q, s, confirmed, deleteOk, RemoveCurrent(q))
  }

  /** Rejecting as written: the remembered coordinates stay those of the rejected record. */
  function RejectAsWritten(q: Queue, s: Store, confirmed: bool, deleteOk: bool): (r: Moderated)
    requires Valid(q)
    ensures r.store.approved == s.approved && Valid(r.queue)
    ensures r.queue.original == q.original
    ensures !(confirmed && deleteOk && |q.records| > 0) ==> r.queue == q && r.store == s
    ensures confirmed && deleteOk && |q.records| > 0 ==>
      r.queue == RemoveCurrentAsWritten(q) && r.store.pending == DeleteById(s.pending, Get(q.form, Id))
  {
    if |q.records| == 0 then RejectWith(q, s, confirmed, deleteOk, q)
    else RejectWith(q, s, confirmed, deleteOk, RemoveCurrentAsWritten(q))
  }

  /** Accepting the only pending record, with nothing like it approved, empties the queue. */
  lemma AcceptSoleRecord(row: Record, user: Option<string>)
    ensures var q := Load([row]);
      var r := Accept(q, Store([], [row]), user, true, true);
      && r.queue.records == [] && r.queue.form == map[]
      && r.store.approved == [Prepare(q.form, q.original, user)]
      && r.store.pending == []
      && r.notice == AllProcessed
  {
    AcceptOnlyRecord(Load([row]), Store([], [row]), user);
    LoadKeepsId(row);
  }

  /** Accepting the last record of the queue into empty approved rows. */
  lemma AcceptOnlyRecord(q: Queue, s: Store, user: Option<string>)
    requires Valid(q) && |q.records| == 1 && s.approved == []
    ensures var r := Accept(q, s, user, true, true);
      && r.queue.records == [] && r.queue.form == map[]
      && r.store == Store([Prepare(q.form, q.original, user)], DeleteById(s.pending, Get(q.form, Id)))
      && r.notice == AllProcessed
  {
    assert FirstMatch([], MatchKey(q.form)) == None;
    assert RemoveCurrent(q).records == [];
  }

  /** Loading keeps the row's id in the form, so deleting by it removes the row. */
  lemma LoadKeepsId(row: Record)
    ensures DeleteById([row], Get(Load([row]).form, Id)) == []
  {
    assert Id !in LocationFields by {
      assert forall k :: k in LocationFields ==> k[0] != Id[0];
    }
    assert Get(Load([row]).form, Id) == Get(row, Id);
  }

  /** Rejecting the only pending record empties the queue and leaves the approved rows alone. */
  lemma RejectSoleRecord(row: Record, approved: seq<Record>)
    ensures var r := Reject(Load([row]), Store(approved, [row]), true, true);
      && r.queue.records == [] && r.store.approved == approved && r.notice == AllProcessed
  {
  }

  /**
   * As written, accepting a record leaves its coordinates remembered for
   * the next one: a following record without coordinates is approved
   * with the previous record's latitude.
   */
  lemma StaleCoordsReachNextRecord(a: Record, b: Record, user: Option<string>)
    requires Truthy(Get(a, Latitude)) && DecimalOrNull(Get(a, Latitude)) != Null
    requires Get(b, Latitude) == Null
    ensures var r := AcceptAsWritten(Load([a, b]), Store([], [a, b]), user, true, true);
      && r.queue.form == b
      && Prepare(r.queue.form, r.queue.original, user)[Latitude] == DecimalOrNull(Get(a, Latitude))
  {
    var q := Load([a, b]);
    assert SingleMatch([], MatchKey(q.form)) == None;
    var r := AcceptAsWritten(q, Store([], [a, b]), user, true, true);
    assert r.queue == RemoveCurrentAsWritten(q);
    assert r.queue.records == [b];
    PreparedValues(r.queue.form, r.queue.original, user);
  }

  /** With the coordinates refreshed, the same record is approved without coordinates. */
  lemma FreshCoordsForNextRecord(a: Record, b: Record, user: Option<string>)
    requires Get(b, Latitude) == Null
    ensures var r := Accept(Load([a, b]), Store([], [a, b]), user, true, true);
      && r.queue.form == b
      && Prepare(r.queue.form, r.queue.original, user)[Latitude] == Null
  {
    var q := Load([a, b]);
    assert Unmatched([], MatchKey(q.form));
    var r := Accept(q, Store([], [a, b]), user, true, true);
    assert r.queue.records == [b];
    PreparedValues(r.queue.form, r.queue.original, user);
  }

  /**
   * As written, rejecting a record also leaves its coordinates remembered:
   * the following record, without coordinates, would be approved with the
   * rejected record's latitude.
   */
  lemma StaleCoordsAfterReject(a: Record, b: Record, approved: seq<Record>, user: Option<string>)
    requires Truthy(Get(a, Latitude)) && DecimalOrNull(Get(a, Latitude)) != Null
    requires Get(b, Latitude) == Null
    ensures var r := RejectAsWritten(Load([a, b]), Store(approved, [a, b]), true, true);
      && r.queue.form == b
      && Prepare(r.queue.form, r.queue.original, user)[Latitude] == DecimalOrNull(Get(a, Latitude))
  {
    var q := Load([a, b]);
    var r := RejectAsWritten(q, Store(approved, [a, b]), true, true);
    assert r.queue.records == [b];
    PreparedValues(r.queue.form, r.queue.original, user);
  }

  /** With the coordinates refreshed, the record after a rejected one is approved without coordinates. */
  lemma FreshCoordsAfterReject(a: Record, b: Record, approved: seq<Record>, user: Option<string>)
    requires Get(b, Latitude) == Null
    ensures var r := Reject(Load([a, b]), Store(approved, [a, b]), true, true);
      && r.queue.form == b
      && Prepare(r.queue.form, r.queue.original, user)[Latitude] == Null
  {
    var q := Load([a, b]);
    var r := Reject(q, Store(approved, [a, b]), true, true);
    assert r.queue.records == [b];
    PreparedValues(r.queue.form, r.queue.original, user);
  }

  /**
   * Whenever the remembered coordinates belong to the record on screen,
   * the prepared latitude is the edited one, the record's own, or null.
   */
  lemma FallbackIsOwnCoords(q: Queue, user: Option<string>)
    requires Valid(q) && OwnCoords(q) && |q.records| > 0
    ensures var lat := Prepare(q.form, q.original, user)[Latitude];
      lat == Null || lat == DecimalOrNull(Get(q.form, Latitude)) || lat == DecimalOrNull(Get(q.records[q.index], Latitude))
  {
    PreparedLatitude(q.form, q.original, user);
    RememberedDecimal(q.original.latitude, Get(q.records[q.index], Latitude));
  }

  /** The prepared latitude is the edited one, falling back to the remembered one. */
  lemma PreparedLatitude(form: Record, original: Coords, user: Option<string>)
    ensures Prepare(form, original, user)[Latitude]
         == OrElse(DecimalOrNull(Get(form, Latitude)), DecimalOrNull(original.latitude))
  {
    assert Latitude in PreparedFields;
    assert Approved[0] != Latitude[0] && CreatedBy[0] != Latitude[0];
  }

  /** A value remembered as `v || ''` parses to null or to what `v` parses to. */
  lemma RememberedDecimal(c: Value, v: Value)
    requires c == v || c == OrBlank(v)
    ensures DecimalOrNull(c) == Null || DecimalOrNull(c) == DecimalOrNull(v)
  {
    if c != v {
      assert !Truthy(v) && c == Blank;
    }
  }
}

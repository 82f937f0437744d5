/**
 * The static lookup index (region -> district -> community -> settlements)
 * and the option lists the cascading selector derives from it
 * (components/EditableInventoryForm.tsx).
 */
module Lookup {
  import opened Wrappers
  import opened JsValue
  import opened Sequences

  /** One settlement of the index. `lat` and `lon` are the numbers as `toString` renders them. */
  datatype Settlement = Settlement(name: string, code: string, kind: string, lat: Option<string>, lon: Option<string>)

  type Index = map<string, map<string, map<string, seq<Settlement>>>>

  /** The keys of `index[region]`, or none when the region is absent. */
  function Districts(idx: Index, region: string): (r: set<string>)
    ensures region !in idx ==> r == {}
    ensures forall d :: d in r <==> region in idx && d in idx[region]
  {
    if region in idx then idx[region].Keys else {}
  }

  /** The keys of `index[region][district]`, or none when the path is absent. */
  function Communities(idx: Index, region: string, district: string): (r: set<string>)
    ensures forall c :: c in r <==> region in idx && district in idx[region] && c in idx[region][district]
  {
    if region in idx && district in idx[region] then idx[region][district].Keys else {}
  }

  /** The settlement list configured at a path, or empty when the path is absent. */
  function SettlementsAt(idx: Index, region: string, district: string, community: string): (r: seq<Settlement>)
    ensures (region in idx && district in idx[region] && community in idx[region][district])
              ==> r == idx[region][district][community]
    ensures !(region in idx && district in idx[region] && community in idx[region][district]) ==> r == []
  {
    if region in idx && district in idx[region] && community in idx[region][district]
    then idx[region][district][community]
    else []
  }

  /** The `type` of every settlement, in list order. */
  function Kinds(ss: seq<Settlement>): (r: seq<string>)
    ensures |r| == |ss| && forall i :: 0 <= i < |ss| ==> r[i] == ss[i].kind
  {
    seq(|ss|, i requires 0 <= i < |ss| => ss[i].kind)
  }

  predicate NoDuplicates(xs: seq<string>) {
    forall i, j :: 0 <= i < j < |xs| ==> xs[i] != xs[j]
  }

  /** The position of the first occurrence of `x` in `xs`. */
  function FirstIndex(xs: seq<string>, x: string): (k: nat)
    requires x in xs
    ensures k < |xs| && xs[k] == x && x !in xs[..k]
  {
    if xs[0] == x then 0
    else
      var k := FirstIndex(xs[1..], x) + 1;
      assert xs[..k] == [xs[0]] + xs[1..][..k - 1];
      k
  }

  /**
   * Reference definition: the distinct values of `xs` in order of first
   * occurrence, built from the back.
   */
  function Firsts(xs: seq<string>): seq<string> {
    if |xs| == 0 then []
    else
      var p := Firsts(xs[..|xs| - 1]);
      var x := xs[|xs| - 1];
      if x in p then p else p + [x]
  }

  /** The reference definition lists each value of `xs` once, in order of first occurrence. */
  lemma {:induction false} FirstsProperties(xs: seq<string>)
    ensures NoDuplicates(Firsts(xs))
    ensures forall x :: x in Firsts(xs) <==> x in xs
    ensures forall i, j :: 0 <= i < j < |Firsts(xs)| ==> FirstIndex(xs, Firsts(xs)[i]) < FirstIndex(xs, Firsts(xs)[j])
  {
    if |xs| > 0 {
      var front := xs[..|xs| - 1];
      var p := Firsts(front);
      var x := xs[|xs| - 1];
      FirstsProperties(front);
      assert xs == front + [x];
      forall y | y in front ensures FirstIndex(xs, y) == FirstIndex(front, y) {
        FirstIndexOfPrefix(front, xs, y);
      }
      if x !in p {
        assert x !in xs[..|xs| - 1];
        assert FirstIndex(xs, x) == |xs| - 1;
      }
    }
  }

  lemma {:induction false} FirstIndexOfPrefix(front: seq<string>, xs: seq<string>, y: string)
    requires front <= xs && y in front
    ensures FirstIndex(xs, y) == FirstIndex(front, y)
  {
    if xs[0] != y {
      assert front[1..] <= xs[1..];
      assert y in front[1..];
      FirstIndexOfPrefix(front[1..], xs[1..], y);
    }
  }

  /** `new Set(xs)` iterated into an array: insert each value the first time it is seen. */
  function Dedup(xs: seq<string>, seen: seq<string>): seq<string> {
    if |xs| == 0 then seen
    else Dedup(xs[1..], if xs[0] in seen then seen else seen + [xs[0]])
  }

  lemma FirstsSnoc(done: seq<string>, x: string)
    ensures Firsts(done + [x]) == if x in Firsts(done) then Firsts(done) else Firsts(done) + [x]
  {
    assert (done + [x])[..|done|] == done;
  }

  /** The insertion-order set agrees with the reference definition. */
  lemma {:induction false} DedupIsFirsts(done: seq<string>, xs: seq<string>)
    ensures Dedup(xs, Firsts(done)) == Firsts(done + xs)
    decreases |xs|
  {
    if |xs| == 0 {
      assert done + xs == done;
    } else {
      var next := done + [xs[0]];
      var f := Firsts(done);
      var step := if xs[0] in f then f else f + [xs[0]];
      assert Dedup(xs, f) == Dedup(xs[1..], step);
      FirstsSnoc(done, xs[0]);
      assert step == Firsts(next);
      DedupIsFirsts(next, xs[1..]);
      assert next + xs[1..] == done + xs;
    }
  }

  /**
   * The settlement types offered for a community: distinct `type` values,
   * first occurrence first.
   */
  function DistinctTypes(ss: seq<Settlement>): (r: seq<string>)
    ensures NoDuplicates(r)
    ensures forall t :: t in r <==> t in Kinds(ss)
    ensures forall t :: t in r <==> exists i :: 0 <= i < |ss| && ss[i].kind == t
    ensures forall i, j :: 0 <= i < j < |r| ==> FirstIndex(Kinds(ss), r[i]) < FirstIndex(Kinds(ss), r[j])
  {
    var ks := Kinds(ss);
    DedupIsFirsts([], ks);
    assert [] + ks == ks;
    var r := Dedup(ks, []);
    assert r == Firsts(ks);
    FirstsProperties(ks);
    assert forall t :: t in ks <==> exists i :: 0 <= i < |ss| && ss[i].kind == t by {
      forall t | t in ks ensures exists i :: 0 <= i < |ss| && ss[i].kind == t {
        var i :| 0 <= i < |ks| && ks[i] == t;
        assert ss[i].kind == t;
      }
    }
    r
  }

  /** The settlements of one type, in list order: the name options for that type. */
  function OfType(ss: seq<Settlement>, t: string): (r: seq<Settlement>)
    ensures SubsequenceOf(r, ss)
    ensures forall s :: s in r <==> s in ss && s.kind == t
    ensures forall s :: multiset(r)[s] == if s.kind == t then multiset(ss)[s] else 0
    ensures |r| <= |ss|
  {
    if |ss| == 0 then []
    else
      var rest := OfType(ss[1..], t);
      assert ss == [ss[0]] + ss[1..];
      if ss[0].kind == t then [ss[0]] + rest else rest
  }

  /** How many settlements the name lists of all `ts` offer together. */
  function TotalOffered(ss: seq<Settlement>, ts: seq<string>): nat {
    if |ts| == 0 then 0 else |OfType(ss, ts[0])| + TotalOffered(ss, ts[1..])
  }

  lemma {:induction false} TotalOfferedEmpty(ts: seq<string>)
    ensures TotalOffered([], ts) == 0
  {
    if |ts| > 0 {
      TotalOfferedEmpty(ts[1..]);
    }
  }

  lemma {:induction false} TotalOfferedCons(s: Settlement, rest: seq<Settlement>, ts: seq<string>)
    ensures TotalOffered([s] + rest, ts) == multiset(ts)[s.kind] + TotalOffered(rest, ts)
  {
    if |ts| > 0 {
      assert ([s] + rest)[1..] == rest;
      TotalOfferedCons(s, rest, ts[1..]);
      assert ts == [ts[0]] + ts[1..];
    }
  }

  lemma {:induction false} OccursOnce(ts: seq<string>, x: string)
    requires NoDuplicates(ts) && x in ts
    ensures multiset(ts)[x] == 1
  {
    assert ts == [ts[0]] + ts[1..];
    if ts[0] == x {
      assert x !in ts[1..];
    } else {
      OccursOnce(ts[1..], x);
    }
  }

  lemma {:induction false} TotalOfferedCovers(ss: seq<Settlement>, ts: seq<string>)
    requires NoDuplicates(ts)
    requires forall i :: 0 <= i < |ss| ==> ss[i].kind in ts
    ensures TotalOffered(ss, ts) == |ss|
  {
    if |ss| == 0 {
      TotalOfferedEmpty(ts);
    } else {
      assert ss == [ss[0]] + ss[1..];
      TotalOfferedCons(ss[0], ss[1..], ts);
      OccursOnce(ts, ss[0].kind);
      TotalOfferedCovers(ss[1..], ts);
    }
  }

  /**
   * Filtering a community's settlements by each offered type partitions the
   * list: every settlement is offered under exactly its own type, and the
   * name lists together are exactly as long as the list.
   */
  lemma TypesPartitionSettlements(ss: seq<Settlement>)
    ensures forall s :: s in ss ==> s.kind in DistinctTypes(ss) && s in OfType(ss, s.kind)
    ensures forall s, t :: s in OfType(ss, t) ==> s.kind == t
    ensures TotalOffered(ss, DistinctTypes(ss)) == |ss|
  {
    var ts := DistinctTypes(ss);
    TotalOfferedCovers(ss, ts);
  }

  /** The position of the first settlement with this type and name, if any. */
  function FindSettlement(ss: seq<Settlement>, kind: Value, name: Value): (r: Option<nat>)
    ensures r.Some? ==> r.value < |ss| && Str(ss[r.value].kind) == kind && Str(ss[r.value].name) == name
    ensures r.Some? ==> forall j :: 0 <= j < r.value ==> !(Str(ss[j].kind) == kind && Str(ss[j].name) == name)
    ensures r.None? ==> forall j :: 0 <= j < |ss| ==> !(Str(ss[j].kind) == kind && Str(ss[j].name) == name)
  {
    if |ss| == 0 then None
    else if Str(ss[0].kind) == kind && Str(ss[0].name) == name then Some(0)
    else match FindSettlement(ss[1..], kind, name)
      case None => None
      case Some(k) => Some(k + 1)
  }

  /** A coordinate as the form shows it: the number's text, or `''` for null. */
  function CoordText(c: Option<string>): Value {
    match c
    case Some(t) => Str(t)
    case None => Blank
  }
}

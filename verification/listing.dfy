/**
 * The register of approved records (pages/index.tsx): pages of twenty rows,
 * newest first, with previous/next buttons, a location label per row and a
 * link to the record's place on OpenStreetMap.
 */
module Listing {
  import opened Wrappers
  import opened JsText
  import opened JsValue

  const PageSize: nat := 20

  /** An inclusive range of row positions, as `.range(from, to)` takes it. */
  datatype Range = Range(from: nat, to: nat)

  predicate InRange(n: int, g: Range) {
    g.from <= n <= g.to
  }

  /** The rows requested for a page. */
  function PageRange(page: nat): (g: Range)
    ensures g.to - g.from + 1 == PageSize
  {
    var from := page * PageSize;
    Range(from, from + PageSize - 1)
  }

  /**
   * Every row position lies on exactly one page, the quotient of the
   * position by the page size, and each page starts right after the
   * previous one ends.
   */
  lemma RowOnExactlyOnePage(n: nat, page: nat)
    ensures InRange(n, PageRange(page)) <==> page == n / PageSize
    ensures PageRange(page + 1).from == PageRange(page).to + 1
  {
    var q := n / PageSize;
    assert q * PageSize <= n < q * PageSize + PageSize;
    if page < q {
      assert page * PageSize + PageSize <= q * PageSize;
    } else if page > q {
      assert q * PageSize + PageSize <= page * PageSize;
    }
  }

  /** Two different pages share no row. */
  lemma PagesDisjoint(p: nat, q: nat, n: nat)
    requires p != q
    ensures !(InRange(n, PageRange(p)) && InRange(n, PageRange(q)))
  {
    RowOnExactlyOnePage(n, p);
    RowOnExactlyOnePage(n, q);
  }

  function Min(a: int, b: int): int {
    if a <= b then a else b
  }

  /**
   * The rows a page shows: the requested range cut to the rows that exist,
   * or none when the range starts past the end.
   */
  function Fetch(rows: seq<Record>, page: nat): (r: seq<Record>)
    ensures |r| <= PageSize
    ensures |r| == if PageRange(page).from >= |rows| then 0 else Min(PageSize, |rows| - PageRange(page).from)
    ensures forall i :: 0 <= i < |r| ==>
      (PageRange(page).from + i <= PageRange(page).to && PageRange(page).from + i < |rows|
       && r[i] == rows[PageRange(page).from + i])
  {
    var g := PageRange(page);
    if g.from >= |rows| then []
    else
      var hi := Min(g.to + 1, |rows|);
      assert hi - g.from <= PageSize;
      rows[g.from..hi]
  }

  /** "Previous": one page back, never below the first. */
  function PrevPage(page: nat): (r: nat)
    ensures r <= page
    ensures page > 0 ==> r + 1 == page
  {
    if page >= 1 then page - 1 else 0
  }

  predicate PrevDisabled(page: nat, loading: bool) {
    page == 0 || loading
  }

  /** "Next": one page on. */
  function NextPage(page: nat): nat {
    page + 1
  }

  /** "Next" is disabled while loading and after a page with fewer than twenty rows. */
  predicate NextDisabled(shown: seq<Record>, loading: bool) {
    |shown| < PageSize || loading
  }

  /** An enabled "previous" goes back exactly one page. */
  lemma PrevEnabledGoesBack(page: nat, loading: bool)
    requires !PrevDisabled(page, loading)
    ensures PrevPage(page) == page - 1 && PrevPage(page) < page
  {
  }

  /** When "next" is disabled after a short page, no rows lie beyond it. */
  lemma ShortPageIsLast(rows: seq<Record>, page: nat)
    requires NextDisabled(Fetch(rows, page), false)
    ensures |rows| <= PageRange(page).to + 1
    ensures forall later: nat :: later > page ==> Fetch(rows, later) == []
  {
    forall later: nat | later > page
      ensures Fetch(rows, later) == []
    {
      assert PageRange(later).from >= PageRange(page).to + 1 by {
        assert later * PageSize >= page * PageSize + PageSize;
      }
    }
  }

  /**
   * When the rows fill their last page exactly, "next" stays enabled and
   * leads to an empty page.
   */
  lemma FullLastPageLeadsToEmptyPage(rows: seq<Record>, page: nat)
    requires |rows| == (page + 1) * PageSize
    ensures !NextDisabled(Fetch(rows, page), false)
    ensures Fetch(rows, NextPage(page)) == []
  {
  }

  /** 1 for a truthy value, 0 otherwise. */
  function Bit(v: Value): nat {
    if Truthy(v) then 1 else 0
  }

  /** How many of the first `i` values are truthy. */
  function CountBefore(vs: seq<Value>, i: nat): nat
    requires i <= |vs|
  {
    if i == 0 then 0 else CountBefore(vs, i - 1) + Bit(vs[i - 1])
  }

  /** Counting past the first value is counting in the rest, plus the first. */
  lemma {:induction false} CountShift(vs: seq<Value>, i: nat)
    requires 1 <= i <= |vs|
    ensures CountBefore(vs, i) == Bit(vs[0]) + CountBefore(vs[1..], i - 1)
  {
    if i > 1 {
      CountShift(vs, i - 1);
      assert vs[1..][i - 2] == vs[i - 1];
    }
  }

  /** `r` holds the texts of the truthy values of `vs`, and only those, in order. */
  ghost predicate TruthyTexts(vs: seq<Value>, r: seq<string>) {
    && |r| == CountBefore(vs, |vs|)
    && forall i {:trigger vs[i]} :: 0 <= i < |vs| && Truthy(vs[i]) ==> CountBefore(vs, i) < |r| && r[CountBefore(vs, i)] == ToStr(vs[i])
  }

  /** Prepending a value to a row prepends its text when it is truthy. */
  lemma {:induction false} TruthyTextsCons(vs: seq<Value>, rest: seq<string>)
    requires |vs| > 0 && TruthyTexts(vs[1..], rest)
    ensures TruthyTexts(vs, (if Truthy(vs[0]) then [ToStr(vs[0])] else []) + rest)
  {
    var head: seq<string> := if Truthy(vs[0]) then [ToStr(vs[0])] else [];
    var r := head + rest;
    CountShift(vs, |vs|);
    forall i | 0 <= i < |vs| && Truthy(vs[i])
      ensures CountBefore(vs, i) < |r| && r[CountBefore(vs, i)] == ToStr(vs[i])
    {
      if i > 0 {
        CountShift(vs, i);
        assert vs[1..][i - 1] == vs[i];
        var k := CountBefore(vs[1..], i - 1);
        assert k < |rest| && rest[k] == ToStr(vs[i]);
        assert r[|head| + k] == rest[k];
      }
    }
  }

  /**
   * `[...].filter(Boolean)`, each part rendered as text: the truthy parts
   * and only those, in order; the part at position `i` lands after the
   * truthy parts before it.
   */
  function Present(vs: seq<Value>): (r: seq<string>)
    ensures TruthyTexts(vs, r)
    ensures forall i :: 0 <= i < |r| ==> r[i] != ""
    ensures |r| == 0 <==> forall i :: 0 <= i < |vs| ==> !Truthy(vs[i])
  {
    if |vs| == 0 then []
    else
      var rest := Present(vs[1..]);
      TruthyTextsCons(vs, rest);
      TruthyText(vs[0]);
      (if Truthy(vs[0]) then [ToStr(vs[0])] else []) + rest
  }

  /** A truthy value never renders as the empty string. */
  lemma TruthyText(v: Value)
    ensures Truthy(v) ==> ToStr(v) != ""
  {
  }

  /** Joining non-empty parts gives the empty string only when there are no parts. */
  lemma JoinEmptyIff(parts: seq<string>, sep: string)
    requires forall i :: 0 <= i < |parts| ==> parts[i] != ""
    ensures Join(parts, sep) == "" <==> |parts| == 0
  {
    if |parts| > 1 {
      assert |Join(parts, sep)| >= |parts[0]|;
    }
  }

  /**
   * The location label of a row: the administrative parts joined with
   * ", ", a space when a settlement type or name follows, then the type and
   * name joined with " ".
   */
  function LocationLabel(region: Value, district: Value, community: Value, kind: Value, name: Value): (r: string)
    ensures r == "" <==> !Truthy(region) && !Truthy(district) && !Truthy(community) && !Truthy(kind) && !Truthy(name)
  {
    var vs, ws := [region, district, community], [kind, name];
    var area := Present(vs);
    var place := Present(ws);
    assert vs[0] == region && vs[1] == district && vs[2] == community;
    assert ws[0] == kind && ws[1] == name;
    assert |area| == 0 <==> !Truthy(region) && !Truthy(district) && !Truthy(community);
    assert |place| == 0 <==> !Truthy(kind) && !Truthy(name);
    JoinEmptyIff(area, ", ");
    JoinEmptyIff(place, " ");
    Join(area, ", ") + (if Truthy(kind) || Truthy(name) then " " else "") + Join(place, " ")
  }

  /** Every truthy value of a list shows in the joined text of its present parts. */
  lemma JoinedPresentIncludes(vs: seq<Value>, sep: string, v: Value)
    requires v in vs && Truthy(v)
    ensures Includes(Join(Present(vs), sep), ToStr(v))
  {
    var parts := Present(vs);
    var i :| 0 <= i < |vs| && vs[i] == v;
    assert ToStr(v) in parts;
    var k :| 0 <= k < |parts| && parts[k] == ToStr(v);
    JoinIncludesParts(parts, sep, k);
  }

  /** Every truthy part of a location shows in its label. */
  lemma LabelShowsEveryPart(region: Value, district: Value, community: Value, kind: Value, name: Value, v: Value)
    requires v in [region, district, community, kind, name] && Truthy(v)
    ensures Includes(LocationLabel(region, district, community, kind, name), ToStr(v))
  {
    LabelShape(region, district, community, kind, name);
    var top, low := [region, district, community], [kind, name];
    if v in top {
      JoinedPresentIncludes(top, ", ", v);
    } else {
      JoinedPresentIncludes(low, " ", v);
    }
    IncludedAtEitherEnd(Join(Present(top), ", "), if Truthy(kind) || Truthy(name) then " " else "",
      Join(Present(low), " "), ToStr(v));
  }

  /** Text found in the first or the last of three strings is found in all three joined. */
  lemma IncludedAtEitherEnd(a: string, b: string, c: string, t: string)
    requires Includes(a, t) || Includes(c, t)
    ensures Includes(a + b + c, t)
  {
    if Includes(a, t) {
      IncludedInConcat(a, b + c, t);
      assert a + b + c == a + (b + c);
    } else {
      IncludedInConcat(c, a + b, t);
    }
  }

  /**
   * Without an administrative part, a settlement's label starts with the
   * separating space.
   */
  lemma LabelLeadingSpace(kind: Value, name: Value)
    requires Truthy(kind) || Truthy(name)
    ensures LocationLabel(Null, Null, Null, kind, name) == " " + Join(Present([kind, name]), " ")
  {
    LabelShape(Null, Null, Null, kind, name);
    NothingPresent([Null, Null, Null]);
    var rest := Join(Present([kind, name]), " ");
    assert "" + " " + rest == " " + rest;
  }

  /** A row of falsy values renders no parts. */
  lemma NothingPresent(vs: seq<Value>)
    requires forall i :: 0 <= i < |vs| ==> vs[i] == Null
    ensures Present(vs) == [] && Join(Present(vs), ", ") == ""
  {
  }

  /** The label is the two joined lists around the optional space. */
  lemma LabelShape(region: Value, district: Value, community: Value, kind: Value, name: Value)
    ensures LocationLabel(region, district, community, kind, name)
      == Join(Present([region, district, community]), ", ") + (if Truthy(kind) || Truthy(name) then " " else "")
         + Join(Present([kind, name]), " ")
  {
  }

  /** Three truthy values are all kept. */
  lemma PresentOfThree(x: Value, y: Value, z: Value)
    requires Truthy(x) && Truthy(y) && Truthy(z)
    ensures Present([x, y, z]) == [ToStr(x), ToStr(y), ToStr(z)]
  {
    assert [x, y, z][1..] == [y, z];
    assert [y, z][1..] == [z];
    assert Present([z]) == [ToStr(z)];
    assert Present([y, z]) == [ToStr(y)] + Present([z]);
  }

  /** Two truthy values are both kept. */
  lemma PresentOfTwo(x: Value, y: Value)
    requires Truthy(x) && Truthy(y)
    ensures Present([x, y]) == [ToStr(x), ToStr(y)]
  {
    assert [x, y][1..] == [y];
    assert Present([y]) == [ToStr(y)];
  }

  /** Joining three and two texts around a space. */
  lemma JoinFive(r: string, d: string, c: string, k: string, n: string)
    ensures Join([r, d, c], ", ") + " " + Join([k, n], " ") == r + ", " + d + ", " + c + " " + k + " " + n
  {
    assert [r, d, c][1..] == [d, c] && [d, c][1..] == [c];
    assert Join([d, c], ", ") == d + ", " + c;
    assert [k, n][1..] == [n];
    assert Join([k, n], " ") == k + " " + n;
  }

  /** With every part present, the label reads "region, district, community type name". */
  lemma LabelOfCompleteRow(region: Value, district: Value, community: Value, kind: Value, name: Value)
    requires Truthy(region) && Truthy(district) && Truthy(community) && Truthy(kind) && Truthy(name)
    ensures LocationLabel(region, district, community, kind, name)
      == ToStr(region) + ", " + ToStr(district) + ", " + ToStr(community) + " " + ToStr(kind) + " " + ToStr(name)
  {
    LabelShape(region, district, community, kind, name);
    PresentOfThree(region, district, community);
    PresentOfTwo(kind, name);
    JoinFive(ToStr(region), ToStr(district), ToStr(community), ToStr(kind), ToStr(name));
  }

  /**
   * Missing parts are skipped together with their separators: a row with a
   * region, a community and a name only reads "region, community name".
   */
  lemma LabelOfPartialRow(region: Value, district: Value, community: Value, kind: Value, name: Value)
    requires Truthy(region) && !Truthy(district) && Truthy(community) && !Truthy(kind) && Truthy(name)
    ensures LocationLabel(region, district, community, kind, name)
      == ToStr(region) + ", " + ToStr(community) + " " + ToStr(name)
  {
    LabelShape(region, district, community, kind, name);
    var top := [region, district, community];
    assert CountBefore(top, 2) == 1 && CountBefore(top, 3) == 2;
    assert Present(top) == [ToStr(region), ToStr(community)];
    var low := [kind, name];
    assert CountBefore(low, 1) == 0 && CountBefore(low, 2) == 1;
    assert Present(low) == [ToStr(name)];
    assert [ToStr(region), ToStr(community)][1..] == [ToStr(community)];
  }

  const MapPrefix := "https://www.openstreetmap.org/?mlat="
  const MapLon := "&mlon="
  const MapZoom := "#map=16/"

  /** The map link, present only when both coordinates are truthy; the cell shows "-" otherwise. */
  function MapLink(lat: Value, lon: Value): (r: Option<string>)
    ensures r.Some? <==> Truthy(lat) && Truthy(lon)
  {
    if Truthy(lat) && Truthy(lon) then Some(LinkText(ToStr(lat), ToStr(lon))) else None
  }

  /** The link for a latitude text and a longitude text: the marker, then the view centred on it. */
  function LinkText(lat: string, lon: string): string {
    MapPrefix + lat + (MapLon + (lon + (MapZoom + lat + "/") + lon))
  }

  /**
   * Two texts free of a marker character, each followed by text starting
   * with the marker, split a common string at the same place.
   */
  lemma SplitAtMarker(p: string, x: string, y: string, rx: string, ry: string, m: char)
    requires p + x + rx == p + y + ry
    requires m !in x && m !in y
    requires |rx| > 0 && rx[0] == m && |ry| > 0 && ry[0] == m
    ensures x == y && rx == ry
  {
    var u := p + x + rx;
    var n := |p|;
    if |x| != |y| {
      assert false;
    }
    assert x == u[n..n + |x|] == (p + y + ry)[n..n + |y|] == y;
    assert rx == u[n + |x|..] == (p + y + ry)[n + |y|..] == ry;
  }

  /** A text repeated around a fixed middle is determined by the whole. */
  lemma RepeatedAroundMiddle(b: string, d: string, mid: string)
    requires b + mid + b == d + mid + d
    ensures b == d
  {
    assert |b| == |d|;
    assert b == (b + mid + b)[..|b|] == (d + mid + d)[..|d|] == d;
  }

  /** The link text determines both coordinates, as long as the latitude holds no '&'. */
  lemma LinkTextInjective(x: string, y: string, x': string, y': string)
    requires LinkText(x, y) == LinkText(x', y')
    requires '&' !in x && '&' !in x'
    ensures x == x' && y == y'
  {
    var rx := MapLon + (y + (MapZoom + x + "/") + y);
    var ry := MapLon + (y' + (MapZoom + x' + "/") + y');
    SplitAtMarker(MapPrefix, x, x', rx, ry, '&');
    assert y + (MapZoom + x + "/") + y == rx[|MapLon|..] == ry[|MapLon|..] == y' + (MapZoom + x + "/") + y';
    RepeatedAroundMiddle(y, y', MapZoom + x + "/");
  }

  /**
   * The link determines the coordinates it was made from, as long as the
   * latitude's text holds no '&'.
   */
  lemma MapLinkDeterminesCoords(a: Value, b: Value, c: Value, d: Value)
    requires MapLink(a, b).Some? && MapLink(a, b) == MapLink(c, d)
    requires '&' !in ToStr(a) && '&' !in ToStr(c)
    ensures ToStr(a) == ToStr(c) && ToStr(b) == ToStr(d)
  {
    LinkTextInjective(ToStr(a), ToStr(b), ToStr(c), ToStr(d));
  }
}

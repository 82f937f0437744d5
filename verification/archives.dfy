/**
 * The directory of archives (pages/archives.tsx): a search box keeps the
 * archives one of whose four names contains the typed text, ignoring case.
 */
module Archives {
  import opened JsText
  import opened Sequences

  /** An archive as the directory lists it. */
  datatype Archive = Archive(shortName: string, country: string, fullNameUkr: string, fullNameNative: string)

  /** The lowercased term occurs in one of the four lowercased names. */
  predicate Matches(a: Archive, term: string) {
    var t := LowerStr(term);
    || Includes(LowerStr(a.shortName), t)
    || Includes(LowerStr(a.country), t)
    || Includes(LowerStr(a.fullNameUkr), t)
    || Includes(LowerStr(a.fullNameNative), t)
  }

  /**
   * The archives shown for a search term: the matching ones, in the
   * directory's order, each as often as it occurs there.
   */
  function Filter(archives: seq<Archive>, term: string): (r: seq<Archive>)
    ensures SubsequenceOf(r, archives)
    ensures forall a :: a in r <==> a in archives && Matches(a, term)
    ensures forall a :: multiset(r)[a] == if Matches(a, term) then multiset(archives)[a] else 0
  {
    if |archives| == 0 then []
    else
      assert archives == [archives[0]] + archives[1..];
      var rest := Filter(archives[1..], term);
      if Matches(archives[0], term) then [archives[0]] + rest else rest
  }

  /** An empty search term keeps the whole directory. */
  lemma {:induction false} EmptyTermKeepsAll(archives: seq<Archive>)
    ensures Filter(archives, "") == archives
  {
    if |archives| > 0 {
      assert LowerStr("") == "";
      EmptyIncluded(LowerStr(archives[0].shortName));
      EmptyTermKeepsAll(archives[1..]);
      assert archives == [archives[0]] + archives[1..];
    }
  }

  /** An archive matching a longer term matches every term contained in it. */
  lemma MatchesNarrower(a: Archive, term: string, longer: string)
    requires Includes(longer, term) && Matches(a, longer)
    ensures Matches(a, term)
  {
    var t, t' := LowerStr(term), LowerStr(longer);
    LowerKeepsIncludes(longer, term);
    if Includes(LowerStr(a.shortName), t') {
      IncludesTransitive(LowerStr(a.shortName), t', t);
    } else if Includes(LowerStr(a.country), t') {
      IncludesTransitive(LowerStr(a.country), t', t);
    } else if Includes(LowerStr(a.fullNameUkr), t') {
      IncludesTransitive(LowerStr(a.fullNameUkr), t', t);
    } else {
      IncludesTransitive(LowerStr(a.fullNameNative), t', t);
    }
  }

  /**
   * Typing more narrows the list: the results for a longer term are the
   * results for any term it contains, filtered again.
   */
  lemma {:induction false} FilterNarrows(archives: seq<Archive>, term: string, longer: string)
    requires Includes(longer, term)
    ensures Filter(Filter(archives, term), longer) == Filter(archives, longer)
  {
    if |archives| > 0 {
      FilterNarrows(archives[1..], term, longer);
      if Matches(archives[0], longer) {
        MatchesNarrower(archives[0], term, longer);
        assert ([archives[0]] + Filter(archives[1..], term))[1..] == Filter(archives[1..], term);
      } else if Matches(archives[0], term) {
        assert ([archives[0]] + Filter(archives[1..], term))[1..] == Filter(archives[1..], term);
      }
    }
  }
}

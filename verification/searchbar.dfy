/**
 * The search bar (components/SearchBar.tsx): three text filters, reported
 * to the page after every keystroke and cleared together.
 */
module SearchBar {
  /** The bar's inputs. */
  datatype Field = Search | YearFrom | YearTo

  /** The filter object the bar keeps and reports. */
  datatype Filters = Filters(search: string, inventoryYearFrom: string, inventoryYearTo: string)

  const Cleared := Filters("", "", "")

  function Read(f: Filters, field: Field): string {
    match field
    case Search => f.search
    case YearFrom => f.inventoryYearFrom
    case YearTo => f.inventoryYearTo
  }

  /** What a change produces: the new filters, kept and reported alike. */
  datatype Change = Change(kept: Filters, reported: Filters)

  /** Typing into a field replaces that field only, and the page is told the same filters the bar keeps. */
  function HandleChange(f: Filters, field: Field, value: string): (r: Change)
    ensures r.kept == r.reported
    ensures Read(r.kept, field) == value
    ensures forall other: Field :: other != field ==> Read(r.kept, other) == Read(f, other)
  {
    var updated := match field
      case Search => f.(search := value)
      case YearFrom => f.(inventoryYearFrom := value)
      case YearTo => f.(inventoryYearTo := value)
    ;
    Change(updated, updated)
  }

  /** Clearing empties all three fields and tells the page so. */
  function ClearFilters(f: Filters): (r: Change)
    ensures r.kept == r.reported
    ensures forall field: Field :: Read(r.kept, field) == ""
  {
    Change(Cleared, Cleared)
  }

  /**
   * The filters depend only on the last text typed into each field: typing
   * a field's own text back changes nothing, a second edit of a field
   * overrides the first, edits of different fields commute, and emptying
   * each field by hand reaches the same filters as the clear button.
   */
  lemma EditsCombine(f: Filters, field: Field, other: Field, a: string, b: string)
    ensures HandleChange(f, field, Read(f, field)).kept == f
    ensures HandleChange(HandleChange(f, field, a).kept, field, b).kept == HandleChange(f, field, b).kept
    ensures field != other ==>
      HandleChange(HandleChange(f, field, a).kept, other, b).kept
      == HandleChange(HandleChange(f, other, b).kept, field, a).kept
    ensures HandleChange(HandleChange(HandleChange(f, Search, "").kept, YearFrom, "").kept, YearTo, "").kept
      == ClearFilters(f).kept
  {
  }
}

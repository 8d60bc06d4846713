/** The query schema for the meme feed: a sorting choice and the page and
    page size, with the defaults and bounds the schema declares. */
module Filter {
  import opened Outcomes

  /** A string enumeration with exactly two members. */
  datatype Sorting = Top | New

  /** The string each member stands for. */
  function SortingValue(s: Sorting): string
  {
    match s
    case Top => "top"
    case New => "new"
  }

  /** The enumeration's lookup by value, as validation of `sort_by` does it. */
  function ParseSorting(v: string): (r: Option<Sorting>)
    ensures r.Some? <==> v == "top" || v == "new"
  {
    if v == "top" then Some(Top)
    else if v == "new" then Some(New)
    else None
  }

  /** A validated filter; the constructor's defaults are the schema's. */
  datatype MemesFilter = MemesFilter(sortBy: Sorting := New, page: int := 1, limit: int := 10)

  /** The bounds the schema puts on a filter: page > 0, 0 < limit < 101. */
  predicate InBounds(f: MemesFilter)
  {
    f.page > 0 && 0 < f.limit < 101
  }

  /** Validation of the raw fields: every field that breaks its constraint
      is reported by name, in declaration order. */
  function ValidateFilter(sortBy: string := "new", page: int := 1, limit: int := 10)
    : (r: Result<MemesFilter, seq<string>>)
    ensures r.Ok? <==> ParseSorting(sortBy).Some? && page > 0 && 0 < limit < 101
    ensures r.Ok? ==> InBounds(r.value) && SortingValue(r.value.sortBy) == sortBy
                      && r.value.page == page && r.value.limit == limit
    ensures r.Err? ==> ("sort_by" in r.error <==> ParseSorting(sortBy).None?)
                       && ("page" in r.error <==> page <= 0)
                       && ("limit" in r.error <==> !(0 < limit < 101))
                       && (forall e :: e in r.error ==> e in ["sort_by", "page", "limit"])
                       && (forall a, b :: 0 <= a < b < |r.error| ==> r.error[a] != r.error[b])
  {
    var errors :=
      (if ParseSorting(sortBy).None? then ["sort_by"] else [])
      + (if page <= 0 then ["page"] else [])
      + (if 0 < limit < 101 then [] else ["limit"]);
    if errors == [] then Ok(MemesFilter(ParseSorting(sortBy).value, page, limit))
    else Err(errors)
  }

  /** Parsing a member's value gives the member back, and only those two
      strings parse. */
  lemma SortingRoundTrip(s: Sorting, v: string)
    ensures ParseSorting(SortingValue(s)) == Some(s)
    ensures ParseSorting(v) == Some(s) ==> v == SortingValue(s)
  {
  }

  /** With every field left out, validation yields sort_by = new, page 1,
      limit 10, and that filter is within bounds. */
  lemma DefaultFilter()
    ensures ValidateFilter() == Ok(MemesFilter()) == Ok(MemesFilter(New, 1, 10))
    ensures InBounds(MemesFilter())
  {
  }
}

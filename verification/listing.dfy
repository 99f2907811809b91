/**
 The list filters of `books/filters.py`. Visitors filter by page range and
 volume and see one row per page, the scanned version when there is one;
 staff may also filter by type and by a substring of the comments, and see
 every row.
 */
module Listing {
  import opened Wrappers
  import opened Text
  import opened Validators
  import opened Models
  import RangeFilter

  /** The query parameters of the list page; an empty token list or blank text means "not given". */
  datatype FilterParams = FilterParams(
    pageNo: seq<string>,
    volumeNo: Option<int>,
    pageType: Option<PageType>,
    comments: string)

  datatype FilterField = PageNoFilter | VolumeNoFilter | TypeFilter | CommentsFilter

  /** The fields each filter set declares. */
  function FilterFields(isStaff: bool): (r: seq<FilterField>)
    ensures PageNoFilter in r && VolumeNoFilter in r
    ensures TypeFilter in r <==> isStaff
    ensures CommentsFilter in r <==> isStaff
  {
    if isStaff then [PageNoFilter, VolumeNoFilter, TypeFilter, CommentsFilter]
    else [PageNoFilter, VolumeNoFilter]
  }

  /**
   The visitors' collapse of duplicates: every scanned row, and every typed row
   with no scanned row at the same location among `rows`.
   */
  function Dedup(rows: seq<Page>): (r: seq<Page>)
    ensures forall q :: q in r <==>
      q in rows && (q.pageType == Scanned || (q.pageType == Typed && !HasSibling(rows, q, Scanned)))
  {
    Where(rows, (q: Page) => Visible(rows, q))
  }

  /** Every scanned row of the filtered rows is listed. */
  lemma DedupKeepsScanned(rows: seq<Page>, q: Page)
    requires q in rows && q.pageType == Scanned
    ensures q in Dedup(rows)
  {
  }

  /** Every location among the filtered rows is still represented in the listing. */
  lemma DedupKeepsEveryLocation(rows: seq<Page>, q: Page)
    requires q in rows
    ensures exists s :: s in Dedup(rows) && SameLocation(s, q)
  {
    if !Visible(rows, q) {
      var s :| s in rows && SameLocation(s, q) && s.pageType == Scanned;
      assert s in Dedup(rows);
    } else {
      assert q in Dedup(rows);
    }
  }

  /** With unique keys, visitors see at most one row per location. */
  lemma DedupOnePerLocation(rows: seq<Page>, a: Page, b: Page)
    requires UniqueKeys(rows)
    requires a in Dedup(rows) && b in Dedup(rows) && SameLocation(a, b)
    ensures a == b
  {
    KeyDeterminesRow(rows, a, b);
  }

  /** The rows a visitor is shown are exactly the visible rows. */
  lemma DedupIsVisibleRows(rows: seq<Page>, q: Page)
    ensures q in Dedup(rows) <==> q in rows && Visible(rows, q)
  {
  }

  /**
   The page-range and volume filters let `q` through. The range filter only
   restricts the rows when its tokens name at least one page: an empty page
   list is handed on as "no value" (see `RangeFilter.FilterAsWritten`).
   */
  predicate MatchesCommon(params: FilterParams, q: Page)
    requires RangeFilter.AllValid(params.pageNo)
  {
    (RangeFilter.PageNumbers(params.pageNo) != [] ==> q.pageNo in RangeFilter.PageNumbers(params.pageNo))
    && (params.volumeNo.Some? ==> q.volumeNo == params.volumeNo.value)
  }

  /** The type and comments filters of the staff let `q` through. */
  predicate MatchesStaff(params: FilterParams, q: Page)
  {
    (params.pageType.Some? ==> q.pageType == params.pageType.value)
    && (params.comments != "" ==> ContainsIgnoringCase(q.comments, params.comments))
  }

  /**
   The filters every user has, applied in declaration order: the page range
   (after the range syntax is checked) and the exact volume.
   */
  function CommonFilters(rows: seq<Page>, params: FilterParams): (r: Result<seq<Page>, string>)
    ensures r.Err? <==> !RangeFilter.AllValid(params.pageNo)
    ensures r.Err? ==> r.error == PageFilterMessage
    ensures r.Ok? ==> forall q :: q in r.value <==> q in rows && MatchesCommon(params, q)
  {
    if !RangeFilter.AllValid(params.pageNo) then Err(PageFilterMessage)
    else
      var byPage := RangeFilter.FilterAsWritten(rows, params.pageNo);
      var byVolume :=
        if params.volumeNo.Some? then Where(byPage, (q: Page) => q.volumeNo == params.volumeNo.value)
        else byPage;
      Ok(byVolume)
  }

  /** The filters only staff have: the exact type and a case-insensitive substring of the comments. */
  function StaffFilters(rows: seq<Page>, params: FilterParams): (r: seq<Page>)
    ensures forall q :: q in r <==> q in rows && MatchesStaff(params, q)
  {
    var byType :=
      if params.pageType.Some? then Where(rows, (q: Page) => q.pageType == params.pageType.value)
      else rows;
    if params.comments != "" then Where(byType, (q: Page) => ContainsIgnoringCase(q.comments, params.comments))
    else byType
  }

  /**
   The two representations of a page agree on page and volume, so the common
   filters keep both or neither: collapsing the filtered rows keeps exactly the
   rows visible in the whole table that the filters let through.
   */
  lemma DedupOfFiltered(rows: seq<Page>, params: FilterParams)
    requires RangeFilter.AllValid(params.pageNo)
    ensures forall q :: q in Dedup(CommonFilters(rows, params).value) <==>
      q in rows && MatchesCommon(params, q) && Visible(rows, q)
  {
    var filtered := CommonFilters(rows, params).value;
    forall q | q in rows && MatchesCommon(params, q)
      ensures Visible(filtered, q) <==> Visible(rows, q)
    {
      if HasSibling(rows, q, Scanned) {
        var s :| s in rows && SameLocation(s, q) && s.pageType == Scanned;
        assert MatchesCommon(params, s);
        assert s in filtered;
      }
    }
  }

  /**
   The rows of the list page: the filtered rows for staff, and their collapse
   to one row per location for visitors. A malformed page range lists nothing
   and reports the filter's message. Visitors' type and comments parameters are
   not fields of their filter set and are ignored.
   */
  function ListPages(rows: seq<Page>, params: FilterParams, isStaff: bool): (r: Result<seq<Page>, string>)
    ensures r.Err? <==> !RangeFilter.AllValid(params.pageNo)
    ensures r.Err? ==> r.error == PageFilterMessage
    ensures r.Ok? && isStaff ==> forall q :: q in r.value <==>
      q in rows && MatchesCommon(params, q) && MatchesStaff(params, q)
    ensures r.Ok? && !isStaff ==> forall q :: q in r.value <==>
      q in rows && MatchesCommon(params, q) && Visible(rows, q)
  {
    match CommonFilters(rows, params)
    case Err(e) => Err(e)
    case Ok(parent) =>
      if isStaff then Ok(StaffFilters(parent, params))
      else DedupOfFiltered(rows, params); Ok(Dedup(parent))
  }

  /**
   A backwards range such as `5-3` is accepted and names no page, so the list
   page shows staff every row and visitors every visible row.
   */
  lemma BackwardsRangeListsEverything(rows: seq<Page>)
    ensures ListPages(rows, FilterParams(["5-3"], None, None, ""), true) == Ok(rows)
    ensures ListPages(rows, FilterParams(["5-3"], None, None, ""), false) == Ok(Dedup(rows))
  {
    RangeFilter.BackwardsToken();
    assert RangeFilter.PageNumbers(["5-3"]) == [];
  }
}

/**
 The two views of `books/views.py`: the list page picks its table and filter
 set by the user's role, and the detail page looks a page up from its URL and
 links to its neighbours.
 */
module Views {
  import opened Wrappers
  import opened Models
  import opened Navigation
  import Listing

  // ---------------------------------------------------------------------------
  // The list page.

  datatype TableClass = PageTableUser | PageTableStaff
  datatype FilterSetClass = PageFilterUser | PageFilterStaff

  /** The columns of each table. */
  datatype Column = PageNoColumn | VolumeNoColumn | TypeColumn | VersionNoColumn | CommentsColumn

  function TableColumns(t: TableClass): (r: seq<Column>)
    ensures PageNoColumn in r && VolumeNoColumn in r
    ensures (TypeColumn in r || VersionNoColumn in r || CommentsColumn in r) <==> t == PageTableStaff
  {
    match t
    case PageTableUser => [PageNoColumn, VolumeNoColumn]
    case PageTableStaff => [PageNoColumn, VolumeNoColumn, TypeColumn, VersionNoColumn, CommentsColumn]
  }

  /** `get_table_class` and `get_filterset_class`: the staff variants exactly for staff. */
  function ListClasses(isStaff: bool): (r: (TableClass, FilterSetClass))
    ensures r.0 == PageTableStaff <==> isStaff
    ensures r.1 == PageFilterStaff <==> isStaff
  {
    if isStaff then (PageTableStaff, PageFilterStaff) else (PageTableUser, PageFilterUser)
  }

  /** A visitor never sees the staff-only columns. */
  lemma VisitorTableHidesStaffColumns()
    ensures var columns := TableColumns(ListClasses(false).0);
      TypeColumn !in columns && VersionNoColumn !in columns && CommentsColumn !in columns
  {
  }

  // ---------------------------------------------------------------------------
  // The detail page.

  datatype GetError = DoesNotExist | MultipleObjectsReturned

  /** `queryset.get()`: the single row, or the error for none or several. */
  function Get(rows: seq<Page>): (r: Result<Page, GetError>)
    ensures r.Ok? <==> |rows| == 1
    ensures r.Ok? ==> r.value == rows[0]
    ensures r == Err(DoesNotExist) <==> |rows| == 0
  {
    if |rows| == 0 then Err(DoesNotExist)
    else if |rows| == 1 then Ok(rows[0])
    else Err(MultipleObjectsReturned)
  }

  /**
   How the detail view ends: a 404 for a missing page, a server error when a
   `get()` finds several rows (that error is not caught).
   */
  datatype DetailError = NotFound | ServerError

  /** The rows at a location whose stored type name is `typeName`. */
  function AtLocation(rows: seq<Page>, volumeNo: int, pageNo: int, typeName: string): seq<Page>
  {
    Where(rows, (q: Page) => q.pageNo == pageNo && q.volumeNo == volumeNo && TypeName(q.pageType) == typeName)
  }

  function GetOne(rows: seq<Page>): Result<Page, DetailError>
  {
    match Get(rows)
    case Ok(p) => Ok(p)
    case Err(DoesNotExist) => Err(NotFound)
    case Err(MultipleObjectsReturned) => Err(ServerError)
  }

  /**
   `PageDetailView.get_object`. Visitors get the scanned row of the page, or
   the typed one when there is no scanned row, whatever type the URL names;
   staff get the row of the type the URL names.
   */
  function DetailObject(rows: seq<Page>, volumeNo: int, pageNo: int, typeSlug: string, isStaff: bool)
    : (r: Result<Page, DetailError>)
    ensures r.Ok? ==> r.value in rows && r.value.volumeNo == volumeNo && r.value.pageNo == pageNo
    ensures r.Ok? && isStaff ==> TypeName(r.value.pageType) == typeSlug
    ensures r.Ok? && !isStaff ==> Visible(rows, r.value)
    ensures r == Err(NotFound) <==>
      if isStaff then
        forall q :: q in rows ==> !(q.volumeNo == volumeNo && q.pageNo == pageNo && TypeName(q.pageType) == typeSlug)
      else
        forall q :: q in rows ==> !(q.volumeNo == volumeNo && q.pageNo == pageNo)
  {
    if !isStaff then
      var scanned := AtLocation(rows, volumeNo, pageNo, TypeName(Scanned));
      var typed := AtLocation(rows, volumeNo, pageNo, TypeName(Typed));
      assert scanned != [] ==> scanned[0] in scanned;
      assert typed != [] ==> typed[0] in typed;
      if scanned != [] then GetOne(scanned) else GetOne(typed)
    else
      var matching := AtLocation(rows, volumeNo, pageNo, typeSlug);
      assert matching != [] ==> matching[0] in matching;
      GetOne(matching)
  }

  /** The stored type names tell the types apart. */
  lemma TypeNameInjective(a: PageType, b: PageType)
    requires TypeName(a) == TypeName(b)
    ensures a == b
  {
    assert |TypeName(Scanned)| != |TypeName(Typed)|;
  }

  /** A filter that only rows of one key pass selects at most one row of a table with unique keys. */
  lemma {:induction false} WhereOneKey(rows: seq<Page>, f: Page -> bool)
    requires UniqueKeys(rows)
    requires forall a, b :: a in rows && b in rows && f(a) && f(b) ==> KeyOf(a) == KeyOf(b)
    ensures |Where(rows, f)| <= 1
    decreases |rows|
  {
    if |rows| > 0 {
      var rest := rows[1..];
      assert forall q :: q in rest ==> q in rows;
      assert UniqueKeys(rest) by {
        forall i, j | 0 <= i < j < |rest|
          ensures KeyOf(rest[i]) != KeyOf(rest[j])
        {
          assert rest[i] == rows[i + 1] && rest[j] == rows[j + 1];
        }
      }
      if f(rows[0]) {
        forall q | q in rest
          ensures !f(q)
        {
          var k :| 0 <= k < |rest| && rest[k] == q;
          assert rows[k + 1] == q;
        }
        WhereNone(rest, f);
      } else {
        WhereOneKey(rest, f);
      }
    }
  }

  lemma AtLocationAtMostOne(rows: seq<Page>, volumeNo: int, pageNo: int, typeName: string)
    requires UniqueKeys(rows)
    ensures |AtLocation(rows, volumeNo, pageNo, typeName)| <= 1
  {
    forall a, b | a in rows && b in rows
      && a.pageNo == pageNo && a.volumeNo == volumeNo && TypeName(a.pageType) == typeName
      && b.pageNo == pageNo && b.volumeNo == volumeNo && TypeName(b.pageType) == typeName
      ensures KeyOf(a) == KeyOf(b)
    {
      TypeNameInjective(a.pageType, b.pageType);
    }
    WhereOneKey(rows, (q: Page) => q.pageNo == pageNo && q.volumeNo == volumeNo && TypeName(q.pageType) == typeName);
  }

  /** With unique keys the detail view never meets several rows: it shows a page or answers 404. */
  lemma DetailNeverServerError(rows: seq<Page>, volumeNo: int, pageNo: int, typeSlug: string, isStaff: bool)
    requires UniqueKeys(rows)
    ensures DetailObject(rows, volumeNo, pageNo, typeSlug, isStaff) != Err(ServerError)
  {
    AtLocationAtMostOne(rows, volumeNo, pageNo, typeSlug);
    AtLocationAtMostOne(rows, volumeNo, pageNo, TypeName(Scanned));
    AtLocationAtMostOne(rows, volumeNo, pageNo, TypeName(Typed));
  }

  /** The URL of a row (`get_absolute_url`) leads staff back to that row. */
  lemma StaffDetailFindsRow(rows: seq<Page>, q: Page)
    requires UniqueKeys(rows) && q in rows
    ensures DetailObject(rows, q.volumeNo, q.pageNo, TypeName(q.pageType), true) == Ok(q)
  {
    DetailNeverServerError(rows, q.volumeNo, q.pageNo, TypeName(q.pageType), true);
    var r := DetailObject(rows, q.volumeNo, q.pageNo, TypeName(q.pageType), true);
    TypeNameInjective(r.value.pageType, q.pageType);
    KeyDeterminesRow(rows, r.value, q);
  }

  /**
   A visitor reaches every row of their list at any URL of its location, and
   only rows of their list.
   */
  lemma VisitorDetailIsListedRow(rows: seq<Page>, q: Page, typeSlug: string)
    requires UniqueKeys(rows) && q in rows
    ensures DetailObject(rows, q.volumeNo, q.pageNo, typeSlug, false) == Ok(q) <==> q in Listing.Dedup(rows)
  {
    Listing.DedupIsVisibleRows(rows, q);
    DetailNeverServerError(rows, q.volumeNo, q.pageNo, typeSlug, false);
    var r := DetailObject(rows, q.volumeNo, q.pageNo, typeSlug, false);
    if Visible(rows, q) {
      VisibleAtLocationIsUnique(rows, r.value, q);
    }
  }

  /** What the detail page shows: the row and the links to its neighbours. */
  datatype DetailContext = DetailContext(page: Page, nextPage: Option<Page>, previousPage: Option<Page>)

  /** `get_context_data`: the neighbours for the user's role. */
  function Context(rows: seq<Page>, page: Page, isStaff: bool): (c: DetailContext)
    ensures c.page == page
    ensures c.nextPage.Some? ==> c.nextPage.value in rows
    ensures c.previousPage.Some? ==> c.previousPage.value in rows
    ensures !isStaff && c.nextPage.Some? ==> Visible(rows, c.nextPage.value)
    ensures !isStaff && c.previousPage.Some? ==> Visible(rows, c.previousPage.value)
    ensures isStaff && page.pageType == Scanned && HasSibling(rows, page, Typed) ==>
      c.nextPage.Some? && SameLocation(c.nextPage.value, page) && c.nextPage.value.pageType == Typed
    ensures !(isStaff && page.pageType == Scanned && HasSibling(rows, page, Typed)) ==>
      IsFirstLater(rows, page, c.nextPage, ByType)
    ensures isStaff && page.pageType == Typed && HasSibling(rows, page, Scanned) ==>
      c.previousPage.Some? && SameLocation(c.previousPage.value, page) && c.previousPage.value.pageType == Scanned
    ensures !(isStaff && page.pageType == Typed && HasSibling(rows, page, Scanned)) ==>
      IsLastEarlier(rows, page, c.previousPage, if isStaff then ByType else ByTypeDescending)
  {
    NonStaffNextIsVisible(rows, page);
    NonStaffPreviousIsVisible(rows, page);
    DetailContext(page, FindNextPage(rows, page, isStaff), FindPreviousPage(rows, page, isStaff))
  }

  /** The detail view as a whole: the looked-up row with its neighbours, or the error. */
  function Detail(rows: seq<Page>, volumeNo: int, pageNo: int, typeSlug: string, isStaff: bool)
    : (r: Result<DetailContext, DetailError>)
    ensures r.Ok? <==> DetailObject(rows, volumeNo, pageNo, typeSlug, isStaff).Ok?
    ensures r.Ok? ==> r.value.page == DetailObject(rows, volumeNo, pageNo, typeSlug, isStaff).value
  {
    match DetailObject(rows, volumeNo, pageNo, typeSlug, isStaff)
    case Ok(page) => Ok(Context(rows, page, isStaff))
    case Err(e) => Err(e)
  }

  /** Every neighbour link on a detail page leads, for the same user, to the page it names. */
  lemma ContextLinksResolve(rows: seq<Page>, page: Page, isStaff: bool)
    requires UniqueKeys(rows)
    ensures var c := Context(rows, page, isStaff);
      (c.nextPage.Some? ==>
        var n := c.nextPage.value;
        DetailObject(rows, n.volumeNo, n.pageNo, TypeName(n.pageType), isStaff) == Ok(n))
      && (c.previousPage.Some? ==>
        var m := c.previousPage.value;
        DetailObject(rows, m.volumeNo, m.pageNo, TypeName(m.pageType), isStaff) == Ok(m))
  {
    var c := Context(rows, page, isStaff);
    if c.nextPage.Some? {
      var n := c.nextPage.value;
      if isStaff {
        StaffDetailFindsRow(rows, n);
      } else {
        Listing.DedupIsVisibleRows(rows, n);
        VisitorDetailIsListedRow(rows, n, TypeName(n.pageType));
      }
    }
    if c.previousPage.Some? {
      var m := c.previousPage.value;
      if isStaff {
        StaffDetailFindsRow(rows, m);
      } else {
        Listing.DedupIsVisibleRows(rows, m);
        VisitorDetailIsListedRow(rows, m, TypeName(m.pageType));
      }
    }
  }
}

/**
 Sequential navigation between pages (`Page.find_next_page` and
 `Page.find_previous_page` in `books/models.py`). The table is read as a
 sequence of rows; `.first()` and `.last()` of a sorted query are the least and
 greatest matching row under the query's ordering.
 */
module Navigation {
  import opened Wrappers
  import opened Models

  /**
   The orders the navigation queries sort by: the table's own
   (volume, page, type), and the (volume, page, -type) of the non-staff
   previous-page query.
   */
  datatype Ordering = ByType | ByTypeDescending

  function Rank(p: Page, o: Ordering): int
  {
    match o
    case ByType => TypeRank(p.pageType)
    case ByTypeDescending => -(TypeRank(p.pageType) as int)
  }

  /** `a` is at an earlier (volume, page) location than `b`. */
  predicate LocationBefore(a: Page, b: Page)
  {
    a.volumeNo < b.volumeNo || (a.volumeNo == b.volumeNo && a.pageNo < b.pageNo)
  }

  /** `a` sorts strictly before `b` under `o`. */
  predicate Before(a: Page, b: Page, o: Ordering)
  {
    LocationBefore(a, b) || (SameLocation(a, b) && Rank(a, o) < Rank(b, o))
  }

  /** Rows neither of which sorts before the other have the same key. */
  lemma UnorderedMeansSameKey(a: Page, b: Page, o: Ordering)
    requires !Before(a, b, o) && !Before(b, a, o)
    ensures KeyOf(a) == KeyOf(b)
  {
  }

  lemma BeforeTransitive(a: Page, b: Page, c: Page, o: Ordering)
    requires Before(a, b, o) && Before(b, c, o)
    ensures Before(a, c, o)
  {
  }

  /** `.first()` of a query sorted by `o`: a row no other row sorts before, or nothing. */
  function First(rows: seq<Page>, o: Ordering): (r: Option<Page>)
    ensures r.None? <==> |rows| == 0
    ensures r.Some? ==> r.value in rows && forall q :: q in rows ==> !Before(q, r.value, o)
  {
    if |rows| == 0 then None
    else
      assert forall q :: q in rows ==> q == rows[0] || q in rows[1..];
      match First(rows[1..], o)
      case None => Some(rows[0])
      case Some(m) =>
        if Before(rows[0], m, o) then
          assert forall q :: q in rows[1..] ==> !Before(q, rows[0], o) by {
            forall q | q in rows[1..] && Before(q, rows[0], o)
              ensures false
            {
              BeforeTransitive(q, rows[0], m, o);
            }
          }
          Some(rows[0])
        else Some(m)
  }

  /** `.last()` of a query sorted by `o`: a row no other row sorts after, or nothing. */
  function Last(rows: seq<Page>, o: Ordering): (r: Option<Page>)
    ensures r.None? <==> |rows| == 0
    ensures r.Some? ==> r.value in rows && forall q :: q in rows ==> !Before(r.value, q, o)
  {
    if |rows| == 0 then None
    else
      assert forall q :: q in rows ==> q == rows[0] || q in rows[1..];
      match Last(rows[1..], o)
      case None => Some(rows[0])
      case Some(m) =>
        if Before(m, rows[0], o) then
          assert forall q :: q in rows[1..] ==> !Before(rows[0], q, o) by {
            forall q | q in rows[1..] && Before(rows[0], q, o)
              ensures false
            {
              BeforeTransitive(m, rows[0], q, o);
            }
          }
          Some(rows[0])
        else Some(m)
  }

  /**
   `r` is the first row, under `o`, at a location after `p`'s, or nothing when
   no row lies at a later location.
   */
  ghost predicate IsFirstLater(rows: seq<Page>, p: Page, r: Option<Page>, o: Ordering)
  {
    match r
    case None => forall q :: q in rows ==> !LocationBefore(p, q)
    case Some(n) =>
      n in rows && LocationBefore(p, n)
      && forall q :: q in rows && LocationBefore(p, q) ==> !Before(q, n, o)
  }

  /**
   `r` is the last row, under `o`, at a location before `p`'s, or nothing when
   no row lies at an earlier location.
   */
  ghost predicate IsLastEarlier(rows: seq<Page>, p: Page, r: Option<Page>, o: Ordering)
  {
    match r
    case None => forall q :: q in rows ==> !LocationBefore(q, p)
    case Some(m) =>
      m in rows && LocationBefore(m, p)
      && forall q :: q in rows && LocationBefore(q, p) ==> !Before(m, q, o)
  }

  /**
   The page after `p`. Staff on a scanned page first see its typed version, if
   there is one; otherwise everyone moves to the first row of a later page of
   the same volume, else to the first row of a later volume, else nowhere.
   The two queries together find the first row at any later location.
   */
  function FindNextPage(rows: seq<Page>, p: Page, isStaff: bool): (r: Option<Page>)
    ensures r.Some? ==> r.value in rows
    ensures isStaff && p.pageType == Scanned && HasSibling(rows, p, Typed) ==>
      r.Some? && SameLocation(r.value, p) && r.value.pageType == Typed
    ensures !(isStaff && p.pageType == Scanned && HasSibling(rows, p, Typed)) ==>
      IsFirstLater(rows, p, r, ByType)
  {
    var sibling :=
      if isStaff && p.pageType == Scanned
      then First(Where(rows, (q: Page) => SameLocation(q, p) && q.pageType == Typed), ByType)
      else None;
    if sibling.Some? then sibling
    else
      var sameVolume := First(Where(rows, (q: Page) => q.volumeNo == p.volumeNo && q.pageNo > p.pageNo), ByType);
      var otherVolume := First(Where(rows, (q: Page) => q.volumeNo > p.volumeNo), ByType);
      if sameVolume.Some? then sameVolume
      else if otherVolume.Some? then otherVolume
      else None
  }

  /**
   The page before `p`. Staff on a typed page first see its scanned version, if
   there is one; otherwise the last row of an earlier page of the same volume,
   else of an earlier volume, else nowhere. Staff take the last row in the
   table's order (the typed version when both exist); other users take the last
   row in (volume, page, -type) order, which prefers the scanned version.
   */
  function FindPreviousPage(rows: seq<Page>, p: Page, isStaff: bool): (r: Option<Page>)
    ensures r.Some? ==> r.value in rows
    ensures isStaff && p.pageType == Typed && HasSibling(rows, p, Scanned) ==>
      r.Some? && SameLocation(r.value, p) && r.value.pageType == Scanned
    ensures !(isStaff && p.pageType == Typed && HasSibling(rows, p, Scanned)) ==>
      IsLastEarlier(rows, p, r, if isStaff then ByType else ByTypeDescending)
  {
    var sibling :=
      if isStaff && p.pageType == Typed
      then First(Where(rows, (q: Page) => SameLocation(q, p) && q.pageType == Scanned), ByType)
      else None;
    if sibling.Some? then sibling
    else
      var sameVolume := Where(rows, (q: Page) => q.volumeNo == p.volumeNo && q.pageNo < p.pageNo);
      var otherVolume := Where(rows, (q: Page) => q.volumeNo < p.volumeNo);
      var o := if isStaff then ByType else ByTypeDescending;
      if |sameVolume| > 0 then Last(sameVolume, o)
      else if |otherVolume| > 0 then Last(otherVolume, o)
      else None
  }

  // ---------------------------------------------------------------------------
  // Staff navigation walks the whole table, row by row.

  /** `n` is the row right after `p` in the table's (volume, page, type) order. */
  ghost predicate IsSuccessor(rows: seq<Page>, p: Page, n: Page)
  {
    n in rows && Before(p, n, ByType)
    && forall q :: q in rows && Before(p, q, ByType) ==> !Before(q, n, ByType)
  }

  /** `m` is the row right before `p` in the table's (volume, page, type) order. */
  ghost predicate IsPredecessor(rows: seq<Page>, p: Page, m: Page)
  {
    m in rows && Before(m, p, ByType)
    && forall q :: q in rows && Before(q, p, ByType) ==> !Before(m, q, ByType)
  }

  /** For staff, the next page is the next row of the table, and nothing after the last row. */
  lemma StaffNextIsSuccessor(rows: seq<Page>, p: Page)
    ensures match FindNextPage(rows, p, true)
            case None => forall q :: q in rows ==> !Before(p, q, ByType)
            case Some(n) => IsSuccessor(rows, p, n)
  {
    if !(p.pageType == Scanned && HasSibling(rows, p, Typed)) {
      assert forall q :: q in rows && Before(p, q, ByType) ==> LocationBefore(p, q) by {
        forall q | q in rows && Before(p, q, ByType) && !LocationBefore(p, q)
          ensures false
        {
        }
      }
    }
  }

  /** For staff, the previous page is the previous row of the table, and nothing before the first row. */
  lemma StaffPreviousIsPredecessor(rows: seq<Page>, p: Page)
    ensures match FindPreviousPage(rows, p, true)
            case None => forall q :: q in rows ==> !Before(q, p, ByType)
            case Some(m) => IsPredecessor(rows, p, m)
  {
    if !(p.pageType == Typed && HasSibling(rows, p, Scanned)) {
      assert forall q :: q in rows && Before(q, p, ByType) ==> LocationBefore(q, p) by {
        forall q | q in rows && Before(q, p, ByType) && !LocationBefore(q, p)
          ensures false
        {
        }
      }
    }
  }

  /** Staff stepping forward and then back return to the row they started from. */
  lemma StaffNextThenPrevious(rows: seq<Page>, p: Page)
    requires UniqueKeys(rows) && p in rows
    requires FindNextPage(rows, p, true).Some?
    ensures FindPreviousPage(rows, FindNextPage(rows, p, true).value, true) == Some(p)
  {
    var n := FindNextPage(rows, p, true).value;
    StaffNextIsSuccessor(rows, p);
    StaffPreviousIsPredecessor(rows, n);
    var m := FindPreviousPage(rows, n, true).value;
    UnorderedMeansSameKey(m, p, ByType);
    KeyDeterminesRow(rows, m, p);
  }

  /** Staff stepping back and then forward return to the row they started from. */
  lemma StaffPreviousThenNext(rows: seq<Page>, p: Page)
    requires UniqueKeys(rows) && p in rows
    requires FindPreviousPage(rows, p, true).Some?
    ensures FindNextPage(rows, FindPreviousPage(rows, p, true).value, true) == Some(p)
  {
    var m := FindPreviousPage(rows, p, true).value;
    StaffPreviousIsPredecessor(rows, p);
    StaffNextIsSuccessor(rows, m);
    var n := FindNextPage(rows, m, true).value;
    UnorderedMeansSameKey(n, p, ByType);
    KeyDeterminesRow(rows, n, p);
  }

  // ---------------------------------------------------------------------------
  // Other users only ever land on the representation they are shown.

  /** A visitor's next page is never a typed row hidden behind a scanned one. */
  lemma NonStaffNextIsVisible(rows: seq<Page>, p: Page)
    ensures FindNextPage(rows, p, false).Some? ==> Visible(rows, FindNextPage(rows, p, false).value)
  {
    var r := FindNextPage(rows, p, false);
    if r.Some? && !Visible(rows, r.value) {
      var s :| s in rows && SameLocation(s, r.value) && s.pageType == Scanned;
      assert LocationBefore(p, s) && Before(s, r.value, ByType);
    }
  }

  /** A visitor's previous page is never a typed row hidden behind a scanned one. */
  lemma NonStaffPreviousIsVisible(rows: seq<Page>, p: Page)
    ensures FindPreviousPage(rows, p, false).Some? ==> Visible(rows, FindPreviousPage(rows, p, false).value)
  {
    var r := FindPreviousPage(rows, p, false);
    if r.Some? && !Visible(rows, r.value) {
      var s :| s in rows && SameLocation(s, r.value) && s.pageType == Scanned;
      assert LocationBefore(s, p) && Before(r.value, s, ByTypeDescending);
    }
  }

  /** Among the rows at one location, the visible one is the only one that is visible. */
  lemma VisibleAtLocationIsUnique(rows: seq<Page>, a: Page, b: Page)
    requires UniqueKeys(rows) && a in rows && b in rows
    requires SameLocation(a, b) && Visible(rows, a) && Visible(rows, b)
    ensures a == b
  {
    KeyDeterminesRow(rows, a, b);
  }

  /** A visitor stepping forward from a visible row and then back returns to it. */
  lemma NonStaffNextThenPrevious(rows: seq<Page>, p: Page)
    requires UniqueKeys(rows) && p in rows && Visible(rows, p)
    requires FindNextPage(rows, p, false).Some?
    ensures FindPreviousPage(rows, FindNextPage(rows, p, false).value, false) == Some(p)
  {
    var n := FindNextPage(rows, p, false).value;
    var r := FindPreviousPage(rows, n, false);
    assert IsFirstLater(rows, p, Some(n), ByType);
    assert IsLastEarlier(rows, n, r, ByTypeDescending);
    var m := r.value;
    assert SameLocation(m, p);
    NonStaffPreviousIsVisible(rows, n);
    VisibleAtLocationIsUnique(rows, m, p);
  }

  /** A visitor stepping back from a visible row and then forward returns to it. */
  lemma NonStaffPreviousThenNext(rows: seq<Page>, p: Page)
    requires UniqueKeys(rows) && p in rows && Visible(rows, p)
    requires FindPreviousPage(rows, p, false).Some?
    ensures FindNextPage(rows, FindPreviousPage(rows, p, false).value, false) == Some(p)
  {
    var m := FindPreviousPage(rows, p, false).value;
    var r := FindNextPage(rows, m, false);
    assert IsLastEarlier(rows, p, Some(m), ByTypeDescending);
    assert IsFirstLater(rows, m, r, ByType);
    var n := r.value;
    assert SameLocation(n, p);
    NonStaffNextIsVisible(rows, m);
    VisibleAtLocationIsUnique(rows, n, p);
  }

  // ---------------------------------------------------------------------------
  // The ends of the collection.

  /** Nothing follows the last row of the table, for staff and visitors alike. */
  lemma NextOfLastRowIsNone(rows: seq<Page>, p: Page, isStaff: bool)
    requires forall q :: q in rows ==> !Before(p, q, ByType)
    ensures FindNextPage(rows, p, isStaff).None?
  {
    if isStaff && p.pageType == Scanned && HasSibling(rows, p, Typed) {
      var t :| t in rows && SameLocation(t, p) && t.pageType == Typed;
      assert Before(p, t, ByType);
    }
  }

  /** Nothing precedes the first row of the table, for staff and visitors alike. */
  lemma PreviousOfFirstRowIsNone(rows: seq<Page>, p: Page, isStaff: bool)
    requires forall q :: q in rows ==> !Before(q, p, ByType)
    ensures FindPreviousPage(rows, p, isStaff).None?
  {
  }
}

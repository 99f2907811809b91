/**
 The table used by the view tests of `books/tests.py` (pages 23 and 35 of
 volume 12 and page 36 of volume 14; page 23 both scanned and typed), and the
 behaviour those tests expect of it, derived from the general contracts.
 */
module Fixture {
  import opened Wrappers
  import opened Models
  import opened Navigation
  import opened Decimal
  import opened Text
  import opened Validators
  import RangeFilter
  import Listing
  import Views

  /*
   The stored names below are idealized: each row holds the name its own type
   gives. The tests create these rows with a blank type and set it afterwards,
   and a blank type is not `Typed`, so the typed upload of page 23 is in fact
   stored under the `scanned` name. No property below depends on the names.
   */
  const Scanned23 := Page(23, 12, Scanned, 0, Some("volume_12/page_23/volume_12_page_23_scanned.pdf"), None, "")
  const Typed23 := Page(23, 12, Typed, 0, None, Some("volume_12/page_23/volume_12_page_23_typed.pdf"), "")
  const Scanned35 := Page(35, 12, Scanned, 0, Some("volume_12/page_35/volume_12_page_35_scanned.pdf"), None, "")
  const Scanned36 := Page(36, 14, Scanned, 0, Some("volume_14/page_36/volume_14_page_36_scanned.pdf"), None, "")

  const Rows := [Scanned23, Typed23, Scanned35, Scanned36]

  const NoFilter := Listing.FilterParams([], None, None, "")

  lemma RowsAreValid()
    ensures ValidStore(Rows)
  {
  }

  /** Staff list every row: four. */
  lemma StaffListsEveryRow()
    ensures Listing.ListPages(Rows, NoFilter, true) == Ok(Rows)
    ensures |Listing.ListPages(Rows, NoFilter, true).value| == 4
  {
  }

  /** Visitors list three rows: the typed version of page 23 is hidden behind its scanned version. */
  lemma VisitorListsThreeRows()
    ensures Listing.ListPages(Rows, NoFilter, false).Ok?
    ensures forall q :: q in Listing.ListPages(Rows, NoFilter, false).value <==>
      q == Scanned23 || q == Scanned35 || q == Scanned36
    ensures Listing.ListPages(Rows, NoFilter, false) == Ok([Scanned23, Scanned35, Scanned36])
    ensures |Listing.ListPages(Rows, NoFilter, false).value| == 3
  {
    VisitorRowsInOrder();
    assert Listing.CommonFilters(Rows, NoFilter) == Ok(Rows);
  }

  /** Visitors do not see the typed page 23: its scanned version exists. */
  lemma TypedPage23Hidden()
    ensures !Visible(Rows, Typed23)
  {
    assert Scanned23 in Rows;
  }

  /** Of four rows, a test that fails only the second keeps the other three, in order. */
  lemma WhereSkipsSecond(a: Page, b: Page, c: Page, d: Page, f: Page -> bool)
    requires f(a) && !f(b) && f(c) && f(d)
    ensures Where([a, b, c, d], f) == [a, c, d]
  {
    assert [a, b, c, d] == [a] + ([b] + ([c] + ([d] + [])));
    WhereKeeps(d, [], f);
    WhereKeeps(c, [d] + [], f);
    WhereDrops(b, [c] + ([d] + []), f);
    WhereKeeps(a, [b] + ([c] + ([d] + [])), f);
  }

  /** The visible rows of the table, in table order. */
  lemma VisitorRowsInOrder()
    ensures Listing.Dedup(Rows) == [Scanned23, Scanned35, Scanned36]
  {
    TypedPage23Hidden();
    WhereSkipsSecond(Scanned23, Typed23, Scanned35, Scanned36, (q: Page) => Visible(Rows, q));
  }

  /** On the scanned page 23, staff move on to its typed version. */
  lemma StaffNextOfScannedIsTyped()
    ensures FindNextPage(Rows, Scanned23, true) == Some(Typed23)
  {
    assert HasSibling(Rows, Scanned23, Typed) by {
      assert Typed23 in Rows;
    }
  }

  /** Visitors skip the typed version: after page 23 comes page 35. */
  lemma VisitorNextSkipsTyped()
    ensures FindNextPage(Rows, Scanned23, false) == Some(Scanned35)
  {
    assert Scanned35 in Rows;
  }

  /** Back from page 35, staff reach the typed page 23 and visitors the scanned one. */
  lemma PreviousOfPage35()
    ensures FindPreviousPage(Rows, Scanned35, true) == Some(Typed23)
    ensures FindPreviousPage(Rows, Scanned35, false) == Some(Scanned23)
  {
    assert Scanned23 in Rows && Typed23 in Rows;
  }

  /** A visitor following the URL of the typed page 23 is shown the scanned page. */
  lemma VisitorDetailPrefersScanned()
    ensures Views.DetailObject(Rows, 12, 23, TypeName(Typed), false) == Ok(Scanned23)
    ensures Views.DetailObject(Rows, 12, 23, TypeName(Typed), true) == Ok(Typed23)
  {
    RowsAreValid();
    Views.StaffDetailFindsRow(Rows, Typed23);
    assert Scanned23 in Rows;
    Views.VisitorDetailIsListedRow(Rows, Scanned23, TypeName(Typed));
    Listing.DedupIsVisibleRows(Rows, Scanned23);
  }

  // ---------------------------------------------------------------------------
  // The page-range filter of the tests.

  lemma RangeTokenParts()
    ensures Strip("23-35") == "23-35"
    ensures '-' in "23-35" && IndexOf("23-35", '-') == 2
    ensures "23-35"[..2] == "23" && "23-35"[3..] == "35"
  {
    StripUnpadded("23-35");
    assert "23-35"[2] == '-';
    assert "23-35"[1..][1..][0] == '-';
  }

  lemma RangeTokenNumbers()
    ensures ParseDigits("23") == 23 && ParseDigits("35") == 35
  {
    assert "23"[..1] == "2" && "2"[..0] == "";
    assert "35"[..1] == "3" && "3"[..0] == "";
  }

  /** "23-35" is a valid token naming pages 23 to 35. */
  lemma RangeTokenNames(n: int)
    ensures RangeFilter.AllValid(["23-35"])
    ensures RangeFilter.Named(["23-35"], n) <==> 23 <= n <= 35
  {
    RangeTokenParts();
    RangeTokenNumbers();
    assert IsPageToken("23-35");
    assert RangeFilter.Contribution("23-35") == RangeFilter.TokenPages("23-35");
    assert ["23-35"][0] == "23-35";
  }

  const Range23To35 := Listing.FilterParams(["23-35"], None, None, "")

  /** With the filter "23-35" staff see the rows of pages 23 to 35. */
  lemma StaffRangeMembership(q: Page)
    ensures Listing.ListPages(Rows, Range23To35, true).Ok?
    ensures q in Listing.ListPages(Rows, Range23To35, true).value <==> q in Rows && 23 <= q.pageNo <= 35
  {
    RangeTokenNames(23);
    RangeTokenNames(q.pageNo);
    var numbers := RangeFilter.PageNumbers(["23-35"]);
    assert 23 in numbers;
    assert q.pageNo in numbers <==> 23 <= q.pageNo <= 35;
    assert Listing.MatchesStaff(Range23To35, q);
  }

  /** With the filter "23-35" staff list the three rows of pages 23 and 35. */
  lemma StaffRangeFilter()
    ensures Listing.ListPages(Rows, Range23To35, true).Ok?
    ensures forall q :: q in Listing.ListPages(Rows, Range23To35, true).value <==>
      q == Scanned23 || q == Typed23 || q == Scanned35
  {
    RangeTokenNames(0);
    forall q
      ensures q in Listing.ListPages(Rows, Range23To35, true).value <==>
        q == Scanned23 || q == Typed23 || q == Scanned35
    {
      StaffRangeMembership(q);
    }
  }

  lemma NoDash(s: string)
    requires forall k :: 0 <= k < |s| ==> s[k] != '-'
    ensures '-' !in s
  {
  }

  lemma LetterToken()
    ensures !ValidFilterToken("a")
  {
    StripUnpadded("a");
    assert !IsDigit("a"[0]);
  }

  lemma LetterEndShape()
    ensures !IsPageToken("22-a")
  {
    assert "22-a"[2] == '-' && "22-a"[1..][1..][0] == '-';
    assert "22-a"[3..] == "a" && !IsDigit("a"[0]);
  }

  lemma LetterEndToken()
    ensures !ValidFilterToken("22-a")
  {
    StripUnpadded("22-a");
    LetterEndShape();
  }

  lemma LetterStartShape()
    ensures !IsPageToken("a-24")
  {
    assert "a-24"[1] == '-' && "a-24"[1..][0] == '-';
    assert "a-24"[..1] == "a" && !IsDigit("a"[0]);
  }

  lemma LetterStartToken()
    ensures !ValidFilterToken("a-24")
  {
    StripUnpadded("a-24");
    LetterStartShape();
  }

  lemma SemicolonShape()
    ensures !IsPageToken("22;24")
  {
    NoDash("22;24");
    assert !IsDigit("22;24"[2]);
  }

  lemma SemicolonToken()
    ensures !ValidFilterToken("22;24")
  {
    StripUnpadded("22;24");
    SemicolonShape();
  }

  lemma DotShape()
    ensures !IsPageToken("22.24")
  {
    NoDash("22.24");
    assert !IsDigit("22.24"[2]);
  }

  lemma DotToken()
    ensures !ValidFilterToken("22.24")
  {
    StripUnpadded("22.24");
    DotShape();
  }

  /** The malformed filters of the tests, each one rejected. */
  lemma MalformedTokens()
    ensures !ValidFilterToken("a") && !ValidFilterToken("22-a") && !ValidFilterToken("a-24")
    ensures !ValidFilterToken("22;24") && !ValidFilterToken("22.24")
  {
    LetterToken();
    LetterEndToken();
    LetterStartToken();
    SemicolonToken();
    DotToken();
  }

  lemma CommaAt5()
    ensures ',' in "22-24,a" && IndexOf("22-24,a", ',') == 5
  {
    assert "22-24,a"[5] == ',';
    assert "22-24,a"[1..][1..][1..][1..][1..][0] == ',';
  }

  /** "22-24,a" reaches the validator as two tokens, the second of them malformed. */
  lemma CommaSeparatedTokens()
    ensures Split("22-24,a", ',') == ["22-24", "a"]
    ensures !RangeFilter.AllValid(["22-24", "a"])
  {
    CommaAt5();
    assert "22-24,a"[..5] == "22-24" && "22-24,a"[6..] == "a";
    assert ',' !in "a";
    assert Split("a", ',') == ["a"];
    LetterToken();
    assert ["22-24", "a"][1] == "a";
  }
}

/**
 The admin scenario of `books/tests.py`: typed page 3 of volume 3 is added to
 an empty library, added again, uploaded anew and deleted; and the rejected
 submissions of the same tests.
 */
module AdminScenario {
  import opened Wrappers
  import opened Decimal
  import opened Validators
  import opened Models
  import opened Media
  import opened PageStore

  const Pdf := Upload("test_pdf.pdf", 1000, PdfType)
  const Empty := Store([], {})
  const AddTyped := Submission(3, 3, None, Some(Pdf), "")
  /** `volume_3/page_3/volume_3_page_3_typed.pdf`, written as its four parts. */
  const StoredName := "volume_3/page_3" + "/" + "volume_3_page_3_typed" + ".pdf"

  lemma PdfSuffix()
    ensures Suffix("test_pdf.pdf") == ".pdf"
  {
    var name := "test_pdf.pdf";
    assert '/' !in name;
    assert name[8] == '.' && name[9] != '.' && name[10] != '.' && name[11] != '.';
    LastIndexAt(name, '.', 8);
    assert name[8..] == ".pdf";
  }

  lemma Three()
    ensures IntToString(3) == "3"
  {
  }

  lemma DirectoryOfPage3()
    ensures PageDirectory(3, 3) == "volume_3/page_3"
  {
    Three();
  }

  lemma StemOfPage3()
    ensures FileStem(3, 3, Typed) == "volume_3_page_3_typed"
  {
    Three();
  }

  lemma StoredNameOfPage3()
    ensures MediaPath(3, 3, Typed, "test_pdf.pdf") == StoredName
  {
    PdfSuffix();
    DirectoryOfPage3();
    StemOfPage3();
  }

  /** The stored file of page 3 sits in the directory `volume_3/page_3`. */
  lemma DirectoryOfStoredName()
    ensures DirName(StoredName) == "volume_3/page_3"
  {
    StoredNameOfPage3();
    DirectoryOfPage3();
    DirNameOfMediaPath(3, 3, Typed, "test_pdf.pdf");
  }

  lemma AddSucceeds()
    ensures Create(Empty, AddTyped).Ok?
  {
    CheckPdf();
    assert !(exists q :: q in Empty.rows && KeyOf(q) == Key(3, 3, Typed));
  }

  /** The add form creates typed page 3 of volume 3 at version 1, stored under its canonical name. */
  lemma AddCreatesVersionOne()
    ensures Create(Empty, AddTyped).Ok?
    ensures var saving := Create(Empty, AddTyped).value;
      KeyOf(saving.page) == Key(3, 3, Typed) && saving.page.versionNo == 1
      && OwnSlot(saving.page) == Some(StoredName) && saving.store.files == {StoredName}
  {
    AddSucceeds();
    StoredNameOfPage3();
    var saving := Create(Empty, AddTyped).value;
    assert OwnSlot(saving.page) == Some(StoredName);
    assert OwnFileName(saving.page) == StoredName;
  }

  lemma AddIsConsistent()
    ensures Create(Empty, AddTyped).Ok? && Consistent(Create(Empty, AddTyped).value.store)
  {
    AddSucceeds();
    CreatePreservesConsistency(Empty, AddTyped);
  }

  lemma CheckPdf()
    ensures SlotError(Typed, Some(Pdf)).None?
  {
    SlotValidatorLimits(Typed, Pdf);
  }

  /** Adding the same page again is refused. */
  lemma AddTwiceRefused()
    ensures Create(Create(Empty, AddTyped).value.store, AddTyped) == Err(ModelInvalid(AlreadyExists(Key(3, 3, Typed))))
  {
    AddCreatesVersionOne();
    CreateTwiceIsRefused(Empty, AddTyped);
  }

  /** A new upload of the same kind of file moves the page to version 2 under the same name. */
  lemma ReuploadMakesVersionTwo()
    ensures var first := Create(Empty, AddTyped).value.store;
      Update(first, 0, PageStore.Edit(Some(Pdf), "")).Ok?
      && Update(first, 0, PageStore.Edit(Some(Pdf), "")).value.page.versionNo == 2
      && OwnSlot(Update(first, 0, PageStore.Edit(Some(Pdf), "")).value.page) == Some(StoredName)
      && Update(first, 0, PageStore.Edit(Some(Pdf), "")).value.store.files == {StoredName}
  {
    AddCreatesVersionOne();
    AddIsConsistent();
    var first := Create(Empty, AddTyped).value.store;
    var edit := PageStore.Edit(Some(Pdf), "");
    assert first.rows[0] == Create(Empty, AddTyped).value.page;
    CheckPdf();
    UpdateAcceptsValidEdit(first, 0, edit);
    StoredNameOfPage3();
    ReuploadKeepsName(first, 0, edit, "test_pdf.pdf");
    ReuploadKeepsFiles(first, 0, edit, "test_pdf.pdf");
  }

  /**
   Deleting the page, with the delete handler as the code runs it, deletes its
   file and leaves its page directory empty.
   */
  lemma DeleteRemovesFile()
    ensures var first := Create(Empty, AddTyped).value.store;
      var after := DeleteAsWritten(first, 0);
      StoredName !in after.files && after.rows == []
      && forall f :: f in after.files ==> DirName(f) != "volume_3/page_3"
  {
    AddCreatesVersionOne();
    var first := Create(Empty, AddTyped).value.store;
    var page := Create(Empty, AddTyped).value.page;
    assert first.rows[0] == page;
    assert OwnFileName(page) == StoredName;
    DirectoryOfStoredName();
  }

  /** Volume numbers outside 1 to 21 are refused with the validators' messages. */
  lemma VolumeOutOfRange()
    ensures Create(Empty, Submission(3, 22, None, Some(Pdf), "")).Err?
    ensures Create(Empty, Submission(3, 22, None, Some(Pdf), "")).error == VolumeInvalid([MaxVolumeMessage])
    ensures Create(Empty, Submission(3, 0, None, Some(Pdf), "")).error == VolumeInvalid([MinVolumeMessage])
  {
  }

  /** A PNG is refused from the typed slot, and a text file from the scanned slot. */
  const Png := Upload("image.png", 100, "image/png")
  const Txt := Upload("test1.txt", 100, "text/plain")

  lemma PngInTypedSlot()
    ensures Create(Empty, Submission(3, 3, None, Some(Png), "")) == Err(FileInvalid(Typed, UnsupportedType("image/png")))
  {
    assert VolumeFieldErrors(3) == [];
    assert "image/png" != PdfType;
    assert SlotError(Typed, Some(Png)) == Some(UnsupportedType("image/png"));
  }

  lemma TextInScannedSlot()
    ensures Create(Empty, Submission(3, 3, Some(Txt), None, "")) == Err(FileInvalid(Scanned, UnsupportedType("text/plain")))
  {
    assert VolumeFieldErrors(3) == [];
    assert "text/plain" != PdfType;
    assert SlotError(Scanned, Some(Txt)) == Some(UnsupportedType("text/plain"));
  }

  /** A PNG in the typed slot and a text file in the scanned slot are refused for their type. */
  lemma WrongContentType()
    ensures Create(Empty, Submission(3, 3, None, Some(Png), "")) == Err(FileInvalid(Typed, UnsupportedType("image/png")))
    ensures Create(Empty, Submission(3, 3, Some(Txt), None, "")) == Err(FileInvalid(Scanned, UnsupportedType("text/plain")))
  {
    PngInTypedSlot();
    TextInScannedSlot();
  }

  /** No file, or two files, is refused by `Page.clean`. */
  lemma WrongNumberOfFiles()
    ensures Create(Empty, Submission(3, 3, None, None, "")) == Err(ModelInvalid(NoText))
    ensures Create(Empty, Submission(3, 3, Some(Pdf), Some(Pdf), "")) == Err(ModelInvalid(BothTexts))
  {
    CheckPdf();
    SlotValidatorLimits(Scanned, Pdf);
  }
}

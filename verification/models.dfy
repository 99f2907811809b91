/**
 The `Page` record of `books/models.py`: its fields, the database constraints on
 the table, the volume range, the file validators of the two file slots, and the
 create-time validation `clean`.
 */
module Models {
  import opened Wrappers
  import opened Validators

  /** The two representations of a page. */
  datatype PageType = Scanned | Typed

  /** The value stored in the `type` column. */
  function TypeName(t: PageType): string
  {
    match t
    case Typed => "Typed"
    case Scanned => "Scanned"
  }

  /** Position of a type in the table's ordering; the column is text, so the names decide. */
  function TypeRank(t: PageType): nat
  {
    match t
    case Scanned => 0
    case Typed => 1
  }

  /** Lexicographic order of strings, as the database compares the `type` column. */
  predicate StringLess(a: string, b: string)
    decreases |a|
  {
    if |a| == 0 then |b| > 0
    else if |b| == 0 then false
    else a[0] < b[0] || (a[0] == b[0] && StringLess(a[1..], b[1..]))
  }

  /** Ranking the types is the same as comparing their stored names: "Scanned" sorts before "Typed". */
  lemma TypeRankIsNameOrder(a: PageType, b: PageType)
    ensures TypeRank(a) < TypeRank(b) <==> StringLess(TypeName(a), TypeName(b))
  {
    assert StringLess("Scanned", "Typed");
    assert !StringLess("Typed", "Scanned");
    assert !StringLess("Typed", "Typed") by {
      assert !StringLess("yped", "yped") by {
        assert !StringLess("ped", "ped") by {
          assert !StringLess("ed", "ed") by {
            assert !StringLess("d", "d") by {
              assert !StringLess("", "");
            }
          }
        }
      }
    }
    assert !StringLess("Scanned", "Scanned") by {
      assert !StringLess("canned", "canned") by {
        assert !StringLess("anned", "anned") by {
          assert !StringLess("nned", "nned") by {
            assert !StringLess("ned", "ned") by {
              assert !StringLess("ed", "ed") by {
                assert !StringLess("d", "d") by {
                  assert !StringLess("", "");
                }
              }
            }
          }
        }
      }
    }
  }

  /**
   One row of the page table. A file slot holds the stored file's name, or
   nothing when the slot is blank.
   */
  datatype Page = Page(
    pageNo: int,
    volumeNo: int,
    pageType: PageType,
    versionNo: nat,
    scannedText: Option<string>,
    typedText: Option<string>,
    comments: string)

  /** The unique key of the table: (volume, page, type). */
  datatype Key = Key(volumeNo: int, pageNo: int, pageType: PageType)

  function KeyOf(p: Page): Key
  {
    Key(p.volumeNo, p.pageNo, p.pageType)
  }

  /** Two rows are the two representations (or the same one) of one page of one volume. */
  predicate SameLocation(a: Page, b: Page)
  {
    a.volumeNo == b.volumeNo && a.pageNo == b.pageNo
  }

  /** The two check constraints together: exactly one file slot is filled. */
  predicate OneFile(p: Page)
  {
    p.scannedText.Some? != p.typedText.Some?
  }

  /** The unique constraint on (volume_no, page_no, type). */
  predicate UniqueKeys(rows: seq<Page>)
  {
    forall i, j :: 0 <= i < j < |rows| ==> KeyOf(rows[i]) != KeyOf(rows[j])
  }

  /** What the database guarantees of the whole table. */
  predicate ValidStore(rows: seq<Page>)
  {
    UniqueKeys(rows) && forall i :: 0 <= i < |rows| ==> OneFile(rows[i])
  }

  /** In a table with unique keys a key names at most one row. */
  lemma KeyDeterminesRow(rows: seq<Page>, a: Page, b: Page)
    requires UniqueKeys(rows)
    requires a in rows && b in rows
    requires KeyOf(a) == KeyOf(b)
    ensures a == b
  {
    var i :| 0 <= i < |rows| && rows[i] == a;
    var j :| 0 <= j < |rows| && rows[j] == b;
  }

  // ---------------------------------------------------------------------------
  // Field validation.

  const MinVolume := 1
  const MaxVolume := 21
  const MinVolumeMessage := "The volume number must be greater or equal to 1."
  const MaxVolumeMessage := "The volume number must be less or equal to 21."

  /** The messages of the two validators on `volume_no`; none exactly for volumes 1 to 21. */
  function VolumeErrors(volumeNo: int): (errors: seq<string>)
    ensures errors == [] <==> MinVolume <= volumeNo <= MaxVolume
    ensures MinVolumeMessage in errors <==> volumeNo < MinVolume
    ensures MaxVolumeMessage in errors <==> volumeNo > MaxVolume
  {
    (if volumeNo < MinVolume then [MinVolumeMessage] else [])
    + (if volumeNo > MaxVolume then [MaxVolumeMessage] else [])
  }

  /** The minimum of the form field a positive-integer column gets. */
  const FormMinVolumeMessage := "Ensure this value is greater than or equal to 0."

  /**
   The errors the admin form reports for a volume number. A negative number
   fails the form field's minimum of 0 first, and a field that failed in the
   form is not run through the model's validators; any other number gets the
   model validators' messages.
   */
  function VolumeFieldErrors(volumeNo: int): (errors: seq<string>)
    ensures errors == [] <==> MinVolume <= volumeNo <= MaxVolume
    ensures FormMinVolumeMessage in errors <==> volumeNo < 0
    ensures MinVolumeMessage in errors <==> volumeNo == 0
    ensures MaxVolumeMessage in errors <==> volumeNo > MaxVolume
  {
    if volumeNo < 0 then [FormMinVolumeMessage] else VolumeErrors(volumeNo)
  }

  const PdfType := "application/pdf"

  /** The validator on `scanned_text`: PDF only, at most 10,240,000 bytes. */
  const ScannedTextValidator := FileValidator(Some(10240000), [PdfType])

  /** The validator on `typed_text`: PDF only, at most 1,024,000 bytes. */
  const TypedTextValidator := FileValidator(Some(1024000), [PdfType])

  function SlotValidator(t: PageType): FileValidator
  {
    match t
    case Scanned => ScannedTextValidator
    case Typed => TypedTextValidator
  }

  /** A PDF is accepted in a slot exactly up to that slot's ceiling; anything else is refused. */
  lemma SlotValidatorLimits(t: PageType, data: Upload)
    ensures CheckFile(SlotValidator(t), data).None? <==>
      data.detectedType == PdfType
      && data.size <= (if t == Scanned then 10240000 else 1024000)
  {
  }

  // ---------------------------------------------------------------------------
  // Model validation (`Page.clean`).

  /** A record about to be saved: the type may still be blank. */
  datatype Draft = Draft(
    pageNo: int,
    volumeNo: int,
    pageType: Option<PageType>,
    versionNo: nat,
    scannedText: Option<string>,
    typedText: Option<string>,
    comments: string)

  datatype CleanError =
    | NoText
    | BothTexts
    | AlreadyExists(existing: Key)

  /** The type a draft ends up with: the one given, or the one its filled slot implies. */
  function ResolveType(d: Draft): PageType
  {
    match d.pageType
    case Some(t) => t
    case None => if d.typedText.Some? then Typed else Scanned
  }

  /** `Page.objects.filter(page_no=..., volume_no=..., type=...).first()` */
  function FindKey(rows: seq<Page>, k: Key): (r: Option<Page>)
    ensures r.Some? ==> r.value in rows && KeyOf(r.value) == k
    ensures r.None? ==> forall q :: q in rows ==> KeyOf(q) != k
  {
    if |rows| == 0 then None
    else if KeyOf(rows[0]) == k then Some(rows[0])
    else FindKey(rows[1..], k)
  }

  function ToPage(d: Draft): Page
  {
    Page(d.pageNo, d.volumeNo, ResolveType(d), d.versionNo, d.scannedText, d.typedText, d.comments)
  }

  /**
   `Page.clean` over the rows the duplicate query can see. It refuses a draft
   with no file or with two files; it gives a blank type the type of the filled
   slot; and, for a record never uploaded (version 0), it refuses a key that is
   already taken.
   */
  function Clean(rows: seq<Page>, d: Draft): (r: Result<Page, CleanError>)
    ensures r == Err(NoText) <==> d.scannedText.None? && d.typedText.None?
    ensures r == Err(BothTexts) <==> d.scannedText.Some? && d.typedText.Some?
    ensures r.Err? && r.error.AlreadyExists? <==>
      OneFile(ToPage(d)) && d.versionNo == 0
      && exists q :: q in rows && KeyOf(q) == KeyOf(ToPage(d))
    ensures r.Err? && r.error.AlreadyExists? ==> r.error.existing == KeyOf(ToPage(d))
    ensures r.Ok? ==> OneFile(r.value)
    ensures r.Ok? ==>
      (r.value.pageNo == d.pageNo && r.value.volumeNo == d.volumeNo
       && r.value.versionNo == d.versionNo && r.value.scannedText == d.scannedText
       && r.value.typedText == d.typedText && r.value.comments == d.comments)
    ensures r.Ok? ==> d.pageType.Some? ==> r.value.pageType == d.pageType.value
    ensures r.Ok? ==> d.pageType.None? ==> (r.value.pageType == Typed <==> d.typedText.Some?)
    ensures r.Ok? ==> d.versionNo == 0 ==> forall q :: q in rows ==> KeyOf(q) != KeyOf(r.value)
  {
    if d.scannedText.None? && d.typedText.None? then Err(NoText)
    else if d.scannedText.Some? && d.typedText.Some? then Err(BothTexts)
    else
      var page := ToPage(d);
      if d.versionNo == 0 && FindKey(rows, KeyOf(page)).Some? then Err(AlreadyExists(KeyOf(page)))
      else Ok(page)
  }

  /** A record already uploaded (version above 0) is never checked for duplicates. */
  lemma CleanIgnoresRowsAboveZero(rows1: seq<Page>, rows2: seq<Page>, d: Draft)
    requires d.versionNo > 0
    ensures Clean(rows1, d) == Clean(rows2, d)
  {
  }

  // ---------------------------------------------------------------------------
  // Queries over the table.

  /** A `filter(...)` of a queryset: the rows satisfying `f`, in their order. */
  function Where(rows: seq<Page>, f: Page -> bool): (r: seq<Page>)
    ensures forall q :: q in r <==> q in rows && f(q)
  {
    if |rows| == 0 then [] else (if f(rows[0]) then [rows[0]] else []) + Where(rows[1..], f)
  }

  /** A row that passes the test is kept in front of the rest. */
  lemma WhereKeeps(x: Page, rest: seq<Page>, f: Page -> bool)
    requires f(x)
    ensures Where([x] + rest, f) == [x] + Where(rest, f)
  {
    assert ([x] + rest)[1..] == rest;
  }

  /** A row that fails the test is dropped. */
  lemma WhereDrops(x: Page, rest: seq<Page>, f: Page -> bool)
    requires !f(x)
    ensures Where([x] + rest, f) == Where(rest, f)
  {
    assert ([x] + rest)[1..] == rest;
  }

  /** A test no row passes selects nothing. */
  lemma {:induction false} WhereNone(rows: seq<Page>, f: Page -> bool)
    requires forall q :: q in rows ==> !f(q)
    ensures Where(rows, f) == []
    decreases |rows|
  {
    if |rows| > 0 {
      assert forall q :: q in rows[1..] ==> q in rows;
      WhereNone(rows[1..], f);
    }
  }

  /** Some row of the table is the `t` representation of `p`'s location. */
  predicate HasSibling(rows: seq<Page>, p: Page, t: PageType)
  {
    exists q :: q in rows && SameLocation(q, p) && q.pageType == t
  }

  /** The row a visitor is shown for its location: the scanned one, or the typed one when it is alone. */
  predicate Visible(rows: seq<Page>, q: Page)
  {
    q.pageType == Scanned || !HasSibling(rows, q, Scanned)
  }

}

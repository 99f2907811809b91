/**
 Adding, changing and deleting a page through the admin: the form fields are
 validated, `Page.clean` runs, the form's `save` sets the version and change
 reason, and the upload is stored at its `media_directory_path`. The table and
 the media directory are modelled together as a `Store`.
 */
module PageStore {
  import opened Wrappers
  import opened Validators
  import opened Models
  import opened Forms
  import opened Media

  /** The page table and the set of stored files. */
  datatype Store = Store(rows: seq<Page>, files: set<string>)

  /**
   What holds between the table and the media directory: the database
   constraints, and every row's own file stored where `media_directory_path`
   put it.
   */
  predicate Consistent(s: Store)
  {
    ValidStore(s.rows)
    && forall i :: 0 <= i < |s.rows| ==> FileInPlace(s.rows[i]) && OwnFileName(s.rows[i]) in s.files
  }

  /** The add form as posted: numbers, at most one upload per slot, comments. */
  datatype Submission = Submission(
    pageNo: int,
    volumeNo: int,
    scanned: Option<Upload>,
    typed: Option<Upload>,
    comments: string)

  /** The change form as posted: page, volume and the other slot are locked. */
  datatype Edit = Edit(upload: Option<Upload>, comments: string)

  datatype SaveError =
    | VolumeInvalid(messages: seq<string>)
    | FileInvalid(slot: PageType, fileError: FileError)
    | ModelInvalid(cleanError: CleanError)

  /** A successful save: the new store, the saved row and the reason recorded in its history. */
  datatype Saving = Saving(store: Store, page: Page, changeReason: string)

  function UploadName(u: Option<Upload>): Option<string>
  {
    match u
    case Some(x) => Some(x.name)
    case None => None
  }

  /** The complaint of the validator of slot `t` about an upload, if any. */
  function SlotError(t: PageType, u: Option<Upload>): Option<FileError>
  {
    match u
    case Some(x) => CheckFile(SlotValidator(t), x)
    case None => None
  }

  /** A row whose own slot now names the stored path, at the given version. */
  function WithFile(p: Page, versionNo: nat, path: string): (r: Page)
    ensures KeyOf(r) == KeyOf(p) && r.versionNo == versionNo && r.comments == p.comments
    ensures OwnSlot(r) == Some(path)
    ensures OneFile(p) && OwnSlot(p).Some? ==> OneFile(r)
  {
    if p.pageType == Typed then p.(versionNo := versionNo, typedText := Some(path))
    else p.(versionNo := versionNo, scannedText := Some(path))
  }

  /** The fields a create changes: the filled slot, and the comments when any were typed. */
  function CreateChanges(t: PageType, comments: string): set<FormField>
  {
    {SlotField(t)} + (if comments != "" then {CommentsField} else {})
  }

  function CreateDraft(sub: Submission): Draft
  {
    Draft(sub.pageNo, sub.volumeNo, None, 0, UploadName(sub.scanned), UploadName(sub.typed), sub.comments)
  }

  /** The type a submission with exactly one upload creates. */
  function SubmittedType(sub: Submission): PageType
  {
    if sub.typed.Some? then Typed else Scanned
  }

  /**
   The admin add view: field validation (the volume range, then each slot's file
   validator), `Page.clean` against the whole table, then the form's save,
   which makes the new row version 1 and stores its file.
   */
  function Create(s: Store, sub: Submission): (r: Result<Saving, SaveError>)
    ensures r.Err? && r.error.VolumeInvalid? <==> !(MinVolume <= sub.volumeNo <= MaxVolume)
    ensures r.Err? && r.error.FileInvalid? ==>
      SlotError(r.error.slot, if r.error.slot == Typed then sub.typed else sub.scanned) == Some(r.error.fileError)
    ensures r.Err? && r.error.ModelInvalid? ==>
      MinVolume <= sub.volumeNo <= MaxVolume
      && SlotError(Scanned, sub.scanned).None? && SlotError(Typed, sub.typed).None?
    ensures r == Err(ModelInvalid(NoText)) <==>
      MinVolume <= sub.volumeNo <= MaxVolume && sub.scanned.None? && sub.typed.None?
    ensures r.Err? && r.error.ModelInvalid? && r.error.cleanError.AlreadyExists? <==>
      MinVolume <= sub.volumeNo <= MaxVolume
      && SlotError(Scanned, sub.scanned).None? && SlotError(Typed, sub.typed).None?
      && sub.scanned.Some? != sub.typed.Some?
      && exists q :: q in s.rows && KeyOf(q) == Key(sub.volumeNo, sub.pageNo, SubmittedType(sub))
    ensures r.Ok? ==> sub.scanned.Some? != sub.typed.Some?
    ensures r.Ok? ==> KeyOf(r.value.page) == Key(sub.volumeNo, sub.pageNo, SubmittedType(sub))
    ensures r.Ok? ==> forall q :: q in s.rows ==> KeyOf(q) != KeyOf(r.value.page)
    ensures r.Ok? ==> r.value.store.rows == s.rows + [r.value.page]
    ensures r.Ok? ==> r.value.page.versionNo == 1 && UploadNumber(r.value.changeReason) == Some(1)
    ensures r.Ok? ==> r.value.page.comments == sub.comments && OneFile(r.value.page)
    ensures r.Ok? ==>
      var upload := if sub.typed.Some? then sub.typed.value else sub.scanned.value;
      OwnSlot(r.value.page) == Some(MediaPath(sub.volumeNo, sub.pageNo, SubmittedType(sub), upload.name))
    ensures r.Ok? ==> r.value.store.files == s.files + {OwnFileName(r.value.page)}
  {
    var volume := VolumeFieldErrors(sub.volumeNo);
    if volume != [] then Err(VolumeInvalid(volume))
    else if SlotError(Scanned, sub.scanned).Some? then
      Err(FileInvalid(Scanned, SlotError(Scanned, sub.scanned).value))
    else if SlotError(Typed, sub.typed).Some? then
      Err(FileInvalid(Typed, SlotError(Typed, sub.typed).value))
    else
      match Clean(s.rows, CreateDraft(sub))
      case Err(e) => Err(ModelInvalid(e))
      case Ok(page) =>
        var saved := Save(0, sub.comments, CreateChanges(page.pageType, sub.comments));
        var upload := if page.pageType == Typed then sub.typed.value else sub.scanned.value;
        var path := MediaPath(sub.volumeNo, sub.pageNo, page.pageType, upload.name);
        var stored := WithFile(page, saved.versionNo, path);
        Ok(Saving(Store(s.rows + [stored], s.files + {path}), stored, saved.changeReason))
  }

  /** The table without row `i`. */
  function Others(rows: seq<Page>, i: nat): (r: seq<Page>)
    requires i < |rows|
    ensures |r| == |rows| - 1
    ensures forall j :: 0 <= j < i ==> r[j] == rows[j]
    ensures forall j :: i < j < |rows| ==> r[j - 1] == rows[j]
  {
    rows[..i] + rows[i + 1..]
  }

  /** The draft an edit of row `row` produces: the row with the new upload (if any) and comments. */
  function EditDraft(row: Page, edit: Edit): Draft
  {
    var name := if edit.upload.Some? then Some(edit.upload.value.name) else OwnSlot(row);
    Draft(row.pageNo, row.volumeNo, Some(row.pageType), row.versionNo,
      if row.pageType == Scanned then name else row.scannedText,
      if row.pageType == Typed then name else row.typedText,
      edit.comments)
  }

  /** The fields an edit changes: the row's slot when a file was uploaded, the comments when they differ. */
  function EditChanges(row: Page, edit: Edit): set<FormField>
  {
    (if edit.upload.Some? then {SlotField(row.pageType)} else {})
    + (if edit.comments != row.comments then {CommentsField} else {})
  }

  /**
   The admin change view of row `i`, with the duplicate check of `Page.clean`
   run against `visible`.
   */
  function UpdateAgainst(s: Store, i: nat, edit: Edit, visible: seq<Page>): (r: Result<Saving, SaveError>)
    requires i < |s.rows|
  {
    var row := s.rows[i];
    var t := row.pageType;
    var volume := VolumeFieldErrors(row.volumeNo);
    if volume != [] then Err(VolumeInvalid(volume))
    else if SlotError(t, edit.upload).Some? then Err(FileInvalid(t, SlotError(t, edit.upload).value))
    else
      match Clean(visible, EditDraft(row, edit))
      case Err(e) => Err(ModelInvalid(e))
      case Ok(page) => Ok(SaveEdit(s, i, edit, page))
  }

  /**
   The form's save after a successful `clean` of an edit of row `i`: the row is
   replaced by `page` at its new version, and an upload is stored at its path.
   */
  function SaveEdit(s: Store, i: nat, edit: Edit, page: Page): (r: Saving)
    requires i < |s.rows|
    requires KeyOf(page) == KeyOf(s.rows[i]) && page.comments == edit.comments && OneFile(page)
    requires edit.upload.None? ==> OwnSlot(page) == OwnSlot(s.rows[i])
    requires edit.upload.Some? ==> OwnSlot(page).Some?
    ensures |r.store.rows| == |s.rows| && r.store.rows[i] == r.page
    ensures forall j :: 0 <= j < |s.rows| && j != i ==> r.store.rows[j] == s.rows[j]
    ensures KeyOf(r.page) == KeyOf(s.rows[i]) && r.page.comments == edit.comments
    ensures OneFile(r.page)
    ensures r.page.versionNo == s.rows[i].versionNo + (if edit.upload.Some? then 1 else 0)
    ensures UploadNumber(r.changeReason) == Some(r.page.versionNo) <==> edit.upload.Some?
    ensures edit.upload.None? ==>
      r.changeReason == NoChangeReason && OwnSlot(r.page) == OwnSlot(s.rows[i]) && r.store.files == s.files
    ensures edit.upload.Some? ==>
      OwnSlot(r.page) == Some(MediaPath(s.rows[i].volumeNo, s.rows[i].pageNo, s.rows[i].pageType, edit.upload.value.name))
      && r.store.files == s.files + {OwnFileName(r.page)}
  {
    var row := s.rows[i];
    var saved := Save(row.versionNo, edit.comments, EditChanges(row, edit));
    if edit.upload.Some? then
      var path := MediaPath(row.volumeNo, row.pageNo, row.pageType, edit.upload.value.name);
      var stored := WithFile(page, saved.versionNo, path);
      Saving(Store(s.rows[i := stored], s.files + {path}), stored, saved.changeReason)
    else
      var stored := page.(versionNo := saved.versionNo);
      Saving(Store(s.rows[i := stored], s.files), stored, saved.changeReason)
  }

  /**
   The change view as written: the duplicate check sees the edited row itself,
   so a row still at version 0 is reported as a duplicate of itself.
   */
  function UpdateAsWritten(s: Store, i: nat, edit: Edit): (r: Result<Saving, SaveError>)
    requires i < |s.rows|
    ensures r.Ok? ==> s.rows[i].versionNo > 0
  {
    assert s.rows[i] in s.rows;
    UpdateAgainst(s, i, edit, s.rows)
  }

  /**
   The change view as evidently intended: the duplicate check leaves out the
   row being edited.
   */
  function Update(s: Store, i: nat, edit: Edit): (r: Result<Saving, SaveError>)
    requires i < |s.rows|
    ensures r.Err? && r.error.VolumeInvalid? <==> !(MinVolume <= s.rows[i].volumeNo <= MaxVolume)
    ensures r.Err? && r.error.FileInvalid? <==>
      MinVolume <= s.rows[i].volumeNo <= MaxVolume && SlotError(s.rows[i].pageType, edit.upload).Some?
    ensures r.Ok? ==> |r.value.store.rows| == |s.rows| && r.value.store.rows[i] == r.value.page
    ensures r.Ok? ==> forall j :: 0 <= j < |s.rows| && j != i ==> r.value.store.rows[j] == s.rows[j]
    ensures r.Ok? ==> KeyOf(r.value.page) == KeyOf(s.rows[i]) && r.value.page.comments == edit.comments
    ensures r.Ok? ==> OneFile(r.value.page)
    ensures r.Ok? ==> r.value.page.versionNo == s.rows[i].versionNo + (if edit.upload.Some? then 1 else 0)
    ensures r.Ok? ==> (UploadNumber(r.value.changeReason) == Some(r.value.page.versionNo) <==> edit.upload.Some?)
    ensures r.Ok? && edit.upload.None? ==>
      r.value.changeReason == NoChangeReason && OwnSlot(r.value.page) == OwnSlot(s.rows[i])
      && r.value.store.files == s.files
    ensures r.Ok? && edit.upload.Some? ==>
      OwnSlot(r.value.page) == Some(MediaPath(s.rows[i].volumeNo, s.rows[i].pageNo, s.rows[i].pageType, edit.upload.value.name))
      && r.value.store.files == s.files + {OwnFileName(r.value.page)}
  {
    UpdateAgainst(s, i, edit, Others(s.rows, i))
  }

  /**
   Once a row has been uploaded through the admin its version is above 0, and
   the change view as written then behaves exactly like the corrected one.
   */
  lemma UpdateAsWrittenAgreesAboveZero(s: Store, i: nat, edit: Edit)
    requires i < |s.rows|
    requires s.rows[i].versionNo > 0
    ensures UpdateAsWritten(s, i, edit) == Update(s, i, edit)
  {
    var d := EditDraft(s.rows[i], edit);
    CleanIgnoresRowsAboveZero(s.rows, Others(s.rows, i), d);
    UpdateAgainstDependsOnClean(s, i, edit, s.rows, Others(s.rows, i));
  }

  /** The change view looks at the rows it checks against only through `clean`. */
  lemma UpdateAgainstDependsOnClean(s: Store, i: nat, edit: Edit, v1: seq<Page>, v2: seq<Page>)
    requires i < |s.rows|
    requires Clean(v1, EditDraft(s.rows[i], edit)) == Clean(v2, EditDraft(s.rows[i], edit))
    ensures UpdateAgainst(s, i, edit, v1) == UpdateAgainst(s, i, edit, v2)
  {
  }

  /** Deleting row `i` with the delete handler as written. */
  function DeleteAsWritten(s: Store, i: nat): (r: Store)
    requires i < |s.rows|
    ensures r.rows == Others(s.rows, i)
  {
    Store(Others(s.rows, i), DeleteFilesAsWritten(s.files, s.rows[i]))
  }

  /** Deleting row `i` with the corrected delete handler. */
  function Delete(s: Store, i: nat): (r: Store)
    requires i < |s.rows|
    ensures r.rows == Others(s.rows, i)
    ensures r.files <= s.files
  {
    Store(Others(s.rows, i), DeleteFiles(s.files, s.rows[i]))
  }

  // ---------------------------------------------------------------------------
  // What the operations keep.

  /** A file stored for a row by `media_directory_path` is in place for it. */
  lemma StoredFileInPlace(p: Page, filename: string)
    requires OwnSlot(p) == Some(MediaPath(p.volumeNo, p.pageNo, p.pageType, filename))
    ensures FileInPlace(p)
  {
    MediaPathInPlace(p.volumeNo, p.pageNo, p.pageType, filename);
    var stem := FileStem(p.volumeNo, p.pageNo, p.pageType);
    assert stem <= stem + Suffix(filename);
  }

  /** A row whose key and own slot are those of a row in place is in place too. */
  lemma SameSlotInPlace(p: Page, q: Page)
    requires KeyOf(p) == KeyOf(q) && OwnSlot(p) == OwnSlot(q)
    requires FileInPlace(q)
    ensures FileInPlace(p)
  {
  }

  /** What consistency says of one row of the store. */
  lemma RowOfConsistent(s: Store, k: nat)
    requires Consistent(s) && k < |s.rows|
    ensures OneFile(s.rows[k]) && FileInPlace(s.rows[k]) && OwnFileName(s.rows[k]) in s.files
  {
  }

  /** Appending a row with a fresh key and its file in place keeps a store consistent. */
  lemma AppendPreservesConsistency(s: Store, page: Page, files: set<string>)
    requires Consistent(s)
    requires forall q :: q in s.rows ==> KeyOf(q) != KeyOf(page)
    requires OneFile(page) && FileInPlace(page)
    requires s.files + {OwnFileName(page)} <= files
    ensures Consistent(Store(s.rows + [page], files))
  {
    var rows := s.rows + [page];
    forall i, j | 0 <= i < j < |rows|
      ensures KeyOf(rows[i]) != KeyOf(rows[j])
    {
      if j == |s.rows| {
        assert rows[i] in s.rows;
      } else {
        assert rows[i] == s.rows[i] && rows[j] == s.rows[j];
      }
    }
    forall i | 0 <= i < |rows|
      ensures OneFile(rows[i]) && FileInPlace(rows[i]) && OwnFileName(rows[i]) in files
    {
      if i < |s.rows| {
        RowOfConsistent(s, i);
      }
    }
  }

  /** Creating a page keeps the table and the media directory consistent. */
  lemma CreatePreservesConsistency(s: Store, sub: Submission)
    requires Consistent(s)
    requires Create(s, sub).Ok?
    ensures Consistent(Create(s, sub).value.store)
  {
    var saving := Create(s, sub).value;
    var upload := if sub.typed.Some? then sub.typed.value else sub.scanned.value;
    StoredFileInPlace(saving.page, upload.name);
    AppendPreservesConsistency(s, saving.page, saving.store.files);
  }

  /** Posting the same add form twice: the second one is refused as a duplicate. */
  lemma CreateTwiceIsRefused(s: Store, sub: Submission)
    requires Create(s, sub).Ok?
    ensures Create(Create(s, sub).value.store, sub)
         == Err(ModelInvalid(AlreadyExists(Key(sub.volumeNo, sub.pageNo, SubmittedType(sub)))))
  {
    var saving := Create(s, sub).value;
    assert saving.page in saving.store.rows;
    var again := Create(saving.store, sub);
    assert again.Err? && again.error.ModelInvalid? && again.error.cleanError.AlreadyExists?;
  }

  /** In a table with unique keys the corrected change view never reports a duplicate. */
  lemma UpdateReportsNoDuplicate(s: Store, i: nat, edit: Edit)
    requires i < |s.rows|
    requires UniqueKeys(s.rows)
    ensures !(Update(s, i, edit).Err? && Update(s, i, edit).error.ModelInvalid?
              && Update(s, i, edit).error.cleanError.AlreadyExists?)
  {
    var others := Others(s.rows, i);
    forall q | q in others
      ensures KeyOf(q) != KeyOf(s.rows[i])
    {
      var j :| 0 <= j < |others| && others[j] == q;
      if j < i {
        assert q == s.rows[j];
      } else {
        assert q == s.rows[j + 1];
      }
    }
  }

  /**
   In a consistent store the corrected change view accepts every edit of a row
   with a valid volume number whose upload (if any) passes the slot's validator.
   */
  lemma UpdateAcceptsValidEdit(s: Store, i: nat, edit: Edit)
    requires Consistent(s)
    requires i < |s.rows|
    requires MinVolume <= s.rows[i].volumeNo <= MaxVolume
    requires SlotError(s.rows[i].pageType, edit.upload).None?
    ensures Update(s, i, edit).Ok?
  {
    assert FileInPlace(s.rows[i]) && OneFile(s.rows[i]);
    UpdateReportsNoDuplicate(s, i, edit);
  }

  /**
   The change view as written refuses every edit of a row that is still at
   version 0, even one the corrected view accepts: the row is its own duplicate.
   */
  lemma UpdateAsWrittenRefusesVersionZero(s: Store, i: nat, edit: Edit)
    requires Consistent(s)
    requires i < |s.rows|
    requires s.rows[i].versionNo == 0
    requires MinVolume <= s.rows[i].volumeNo <= MaxVolume
    requires SlotError(s.rows[i].pageType, edit.upload).None?
    ensures UpdateAsWritten(s, i, edit) == Err(ModelInvalid(AlreadyExists(KeyOf(s.rows[i]))))
    ensures Update(s, i, edit).Ok?
  {
    assert FileInPlace(s.rows[i]) && OneFile(s.rows[i]);
    assert s.rows[i] in s.rows;
    UpdateAcceptsValidEdit(s, i, edit);
  }

  /** `after` is `rows` with row `i` replaced by `page`. */
  predicate Replaced(rows: seq<Page>, i: nat, page: Page, after: seq<Page>)
  {
    i < |rows| && |after| == |rows| && after[i] == page
    && forall j :: 0 <= j < |rows| && j != i ==> after[j] == rows[j]
  }

  /** Replacing a row by one with the same key keeps the keys unique. */
  lemma ReplaceKeepsUniqueKeys(rows: seq<Page>, i: nat, page: Page, after: seq<Page>)
    requires UniqueKeys(rows) && Replaced(rows, i, page, after)
    requires KeyOf(page) == KeyOf(rows[i])
    ensures UniqueKeys(after)
  {
    forall a, b | 0 <= a < b < |after|
      ensures KeyOf(after[a]) != KeyOf(after[b])
    {
      assert KeyOf(after[a]) == KeyOf(rows[a]);
      assert KeyOf(after[b]) == KeyOf(rows[b]);
    }
  }

  /** A store is consistent when its keys are unique and each row is stored in place. */
  lemma ConsistentOfRows(rows: seq<Page>, files: set<string>)
    requires UniqueKeys(rows)
    requires forall j :: 0 <= j < |rows| ==> OneFile(rows[j]) && FileInPlace(rows[j]) && OwnFileName(rows[j]) in files
    ensures Consistent(Store(rows, files))
  {
  }

  /** Replacing a row by one with the same key and its file in place keeps a store consistent. */
  lemma ReplacePreservesConsistency(s: Store, i: nat, page: Page, after: Store)
    requires Consistent(s)
    requires Replaced(s.rows, i, page, after.rows)
    requires KeyOf(page) == KeyOf(s.rows[i])
    requires OneFile(page) && FileInPlace(page)
    requires s.files + {OwnFileName(page)} <= after.files
    ensures Consistent(after)
  {
    ReplaceKeepsUniqueKeys(s.rows, i, page, after.rows);
    forall j | 0 <= j < |after.rows|
      ensures OneFile(after.rows[j]) && FileInPlace(after.rows[j]) && OwnFileName(after.rows[j]) in after.files
    {
      if j != i {
        RowOfConsistent(s, j);
      }
    }
    ConsistentOfRows(after.rows, after.files);
  }

  /** An edit of a row whose file is in place leaves the new file in place and stored. */
  lemma UpdateKeepsFileInPlace(s: Store, i: nat, edit: Edit)
    requires i < |s.rows|
    requires FileInPlace(s.rows[i]) && OwnFileName(s.rows[i]) in s.files
    requires Update(s, i, edit).Ok?
    ensures FileInPlace(Update(s, i, edit).value.page)
    ensures s.files + {OwnFileName(Update(s, i, edit).value.page)} <= Update(s, i, edit).value.store.files
  {
    var saving := Update(s, i, edit).value;
    if edit.upload.Some? {
      StoredFileInPlace(saving.page, edit.upload.value.name);
    } else {
      SameSlotInPlace(saving.page, s.rows[i]);
    }
  }

  /** Changing a page keeps the table and the media directory consistent. */
  lemma UpdatePreservesConsistency(s: Store, i: nat, edit: Edit)
    requires Consistent(s)
    requires i < |s.rows|
    requires Update(s, i, edit).Ok?
    ensures Consistent(Update(s, i, edit).value.store)
  {
    var saving := Update(s, i, edit).value;
    RowOfConsistent(s, i);
    UpdateKeepsFileInPlace(s, i, edit);
    ReplacePreservesConsistency(s, i, saving.page, saving.store);
  }

  /**
   Uploading a new file with the same suffix over a page stores it under the
   same name as before.
   */
  lemma ReuploadKeepsName(s: Store, i: nat, edit: Edit, previous: string)
    requires i < |s.rows|
    requires OwnSlot(s.rows[i]) == Some(MediaPath(s.rows[i].volumeNo, s.rows[i].pageNo, s.rows[i].pageType, previous))
    requires edit.upload.Some? && Suffix(edit.upload.value.name) == Suffix(previous)
    requires Update(s, i, edit).Ok?
    ensures OwnSlot(Update(s, i, edit).value.page) == OwnSlot(s.rows[i])
  {
    var row := s.rows[i];
    assert MediaPath(row.volumeNo, row.pageNo, row.pageType, edit.upload.value.name)
        == MediaPath(row.volumeNo, row.pageNo, row.pageType, previous);
  }

  lemma UploadAddsOwnFile(s: Store, i: nat, edit: Edit)
    requires i < |s.rows|
    requires edit.upload.Some?
    requires Update(s, i, edit).Ok?
    ensures Update(s, i, edit).value.store.files == s.files + {OwnFileName(Update(s, i, edit).value.page)}
  {
  }

  lemma AddPresent(files: set<string>, name: string)
    requires name in files
    ensures files + {name} == files
  {
  }

  /** A same-suffix upload over a stored page replaces its file in place: no file is added. */
  lemma ReuploadKeepsFiles(s: Store, i: nat, edit: Edit, previous: string)
    requires i < |s.rows|
    requires OwnSlot(s.rows[i]) == Some(MediaPath(s.rows[i].volumeNo, s.rows[i].pageNo, s.rows[i].pageType, previous))
    requires OwnFileName(s.rows[i]) in s.files
    requires edit.upload.Some? && Suffix(edit.upload.value.name) == Suffix(previous)
    requires Update(s, i, edit).Ok?
    ensures Update(s, i, edit).value.store.files == s.files
  {
    ReuploadKeepsName(s, i, edit, previous);
    UploadAddsOwnFile(s, i, edit);
    AddPresent(s.files, OwnFileName(s.rows[i]));
  }

  /** Leaving a row out of a table keeps its keys unique. */
  lemma OthersKeepUniqueKeys(rows: seq<Page>, i: nat)
    requires UniqueKeys(rows)
    requires i < |rows|
    ensures UniqueKeys(Others(rows, i))
  {
    var others := Others(rows, i);
    forall a, b | 0 <= a < b < |others|
      ensures KeyOf(others[a]) != KeyOf(others[b])
    {
      var a' := if a < i then a else a + 1;
      var b' := if b < i then b else b + 1;
      assert others[a] == rows[a'] && others[b] == rows[b'];
    }
  }

  /** Every row left after deleting row `i` is a row of the table with a different key. */
  lemma OthersAreOtherKeys(rows: seq<Page>, i: nat, j: nat) returns (k: nat)
    requires UniqueKeys(rows)
    requires i < |rows| && j < |rows| - 1
    ensures k < |rows| && k != i && Others(rows, i)[j] == rows[k]
    ensures KeyOf(Others(rows, i)[j]) != KeyOf(rows[i])
  {
    k := if j < i then j else j + 1;
  }

  /** Deleting a page with the corrected handler keeps the store consistent and removes the page's file. */
  lemma DeletePreservesConsistency(s: Store, i: nat)
    requires Consistent(s)
    requires i < |s.rows|
    ensures Consistent(Delete(s, i))
    ensures OwnFileName(s.rows[i]) !in Delete(s, i).files
  {
    var after := Delete(s, i);
    var p := s.rows[i];
    RowOfConsistent(s, i);
    OthersKeepUniqueKeys(s.rows, i);
    forall j | 0 <= j < |after.rows|
      ensures OneFile(after.rows[j]) && FileInPlace(after.rows[j]) && OwnFileName(after.rows[j]) in after.files
    {
      var k := OthersAreOtherKeys(s.rows, i, j);
      RowOfConsistent(s, k);
      DeleteFilesKeepsOtherRows(s.files, p, s.rows[k]);
    }
    DeleteFilesRemovesOwnFile(s.files, p);
  }

  /**
   Deleting one representation of a page with the handler as written leaves the
   other representation's row without its file.
   */
  lemma DeleteAsWrittenBreaksSibling(s: Store, i: nat, j: nat)
    requires Consistent(s)
    requires i < |s.rows| && j < |s.rows| && i != j
    requires SameLocation(s.rows[i], s.rows[j])
    ensures !Consistent(DeleteAsWritten(s, i))
  {
    var after := DeleteAsWritten(s, i);
    var k := if j < i then j else j - 1;
    assert after.rows[k] == s.rows[j];
    assert KeyOf(s.rows[i]) != KeyOf(s.rows[j]);
    assert FileInPlace(s.rows[i]) && FileInPlace(s.rows[j]) && OwnFileName(s.rows[j]) in s.files;
    DeleteAsWrittenRemovesSibling(s.files, s.rows[i], s.rows[j]);
    assert OwnFileName(after.rows[k]) !in after.files;
  }
}

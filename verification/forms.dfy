/**
 The admin form of a page (`books/forms.py`): which fields are locked when an
 existing page is edited, and how saving turns a file change into a new
 version number and a change reason for the history.
 */
module Forms {
  import opened Wrappers
  import opened Decimal
  import opened Models

  datatype FormField =
    | PageNoField
    | VolumeNoField
    | TypeField
    | ScannedTextField
    | TypedTextField
    | CommentsField

  /** The file field that holds a page of the given type. */
  function SlotField(t: PageType): FormField
  {
    match t
    case Scanned => ScannedTextField
    case Typed => TypedTextField
  }

  /**
   The fields locked on the form. Nothing is locked while a page is created;
   on an existing page the page number, the volume number and the file slot of
   the other type are.
   */
  function DisabledFields(isUpdate: bool, t: PageType): (r: set<FormField>)
    ensures !isUpdate ==> r == {}
    ensures isUpdate ==> PageNoField in r && VolumeNoField in r
    ensures isUpdate ==> SlotField(t) !in r && CommentsField !in r && TypeField !in r
    ensures isUpdate ==> forall other :: other != t ==> SlotField(other) in r
    ensures |r| == if isUpdate then 3 else 0
  {
    if !isUpdate then {}
    else
      var other := if t == Scanned then TypedTextField else ScannedTextField;
      {PageNoField, VolumeNoField, other}
  }

  const NoChangeReason := "No change."
  const UploadPrefix := "Upload "

  /** The version and change reason a save records. */
  datatype Saved = Saved(versionNo: nat, changeReason: string)

  predicate FileChanged(changed: set<FormField>)
  {
    TypedTextField in changed || ScannedTextField in changed
  }

  /** The longest run of digits at the start of `s`. */
  function LeadingDigits(s: string): (r: string)
    ensures AllDigits(r) && r <= s
    ensures |r| < |s| ==> !IsDigit(s[|r|])
  {
    if |s| == 0 || !IsDigit(s[0]) then [] else [s[0]] + LeadingDigits(s[1..])
  }

  /** The version number a change reason records, if it is an upload reason. */
  function UploadNumber(reason: string): Option<nat>
  {
    if UploadPrefix <= reason && |LeadingDigits(reason[|UploadPrefix|..])| > 0
    then Some(ParseDigits(LeadingDigits(reason[|UploadPrefix|..])))
    else None
  }

  lemma {:induction false} LeadingDigitsOfNumber(digits: string, rest: string)
    requires AllDigits(digits)
    requires rest == [] || !IsDigit(rest[0])
    ensures LeadingDigits(digits + rest) == digits
    decreases |digits|
  {
    if |digits| > 0 {
      assert (digits + rest)[1..] == digits[1..] + rest;
      LeadingDigitsOfNumber(digits[1..], rest);
    } else {
      assert digits + rest == rest;
    }
  }

  /** An upload reason can be read back: it names the version it was written for. */
  lemma UploadReasonNamesVersion(v: nat, tail: string)
    requires tail == [] || tail[0] == ':'
    ensures UploadNumber(UploadPrefix + NatToString(v) + tail) == Some(v)
  {
    var reason := UploadPrefix + NatToString(v) + tail;
    assert reason[|UploadPrefix|..] == NatToString(v) + tail;
    LeadingDigitsOfNumber(NatToString(v), tail);
    ParseNatToString(v);
  }

  /**
   `PageForm.save`: a change to either file field raises the version by one and
   records "Upload <new version>", followed by ": <comments>" when the comments
   changed too; any other save keeps the version and records "No change.",
   even when the comments changed.
   */
  function Save(versionNo: nat, comments: string, changed: set<FormField>): (r: Saved)
    ensures r.versionNo >= versionNo
    ensures FileChanged(changed) ==> r.versionNo == versionNo + 1 && UploadNumber(r.changeReason) == Some(r.versionNo)
    ensures FileChanged(changed) ==> UploadPrefix + NatToString(r.versionNo) <= r.changeReason
    ensures FileChanged(changed) && CommentsField in changed ==>
      r.changeReason[|UploadPrefix + NatToString(r.versionNo)|..] == ": " + comments
    ensures FileChanged(changed) && CommentsField !in changed ==>
      r.changeReason == UploadPrefix + NatToString(r.versionNo)
    ensures !FileChanged(changed) ==> r.versionNo == versionNo && r.changeReason == NoChangeReason
    ensures UploadNumber(r.changeReason).Some? <==> FileChanged(changed)
  {
    if FileChanged(changed) then
      var v := versionNo + 1;
      var tail := if CommentsField in changed then ": " + comments else "";
      UploadReasonNamesVersion(v, tail);
      assert (UploadPrefix + NatToString(v) + tail)[|UploadPrefix + NatToString(v)|..] == tail;
      Saved(v, UploadPrefix + NatToString(v) + tail)
    else
      assert NoChangeReason[0] != UploadPrefix[0];
      Saved(versionNo, NoChangeReason)
  }
}

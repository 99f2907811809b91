/**
 The validators of `core/validators.py`: the size and content-type check run on
 every uploaded page file, and the syntax check run on the page-range filter.
 */
module Validators {
  import opened Wrappers
  import opened Decimal
  import opened Text

  /**
   An uploaded file as a validator sees it. The MIME type detected from the
   file's bytes comes from a content sniffer outside this model and is taken as given.
   */
  datatype Upload = Upload(name: string, size: nat, detectedType: string)

  /** A configured validator: an optional size ceiling and the allowed MIME types (none listed: any). */
  datatype FileValidator = FileValidator(maxSize: Option<nat>, contentTypes: seq<string>)

  datatype FileError =
    | TooLarge(maxSize: nat, size: nat)
    | UnsupportedType(contentType: string)

  /**
   Runs a validator on an upload; `None` means the file is accepted. The size
   is checked first, so a file that is both too large and of the wrong type is
   reported as too large.
   */
  function CheckFile(v: FileValidator, data: Upload): (r: Option<FileError>)
    ensures r.None? <==>
      (v.maxSize.None? || data.size <= v.maxSize.value)
      && (v.contentTypes == [] || data.detectedType in v.contentTypes)
    ensures (r.Some? && r.value.TooLarge?) <==> v.maxSize.Some? && data.size > v.maxSize.value
    ensures r.Some? && r.value.TooLarge? ==> r.value == TooLarge(v.maxSize.value, data.size)
    ensures r.Some? && r.value.UnsupportedType? ==>
      r.value.contentType == data.detectedType && data.detectedType !in v.contentTypes
  {
    if v.maxSize.Some? && data.size > v.maxSize.value then
      Some(TooLarge(v.maxSize.value, data.size))
    else if v.contentTypes != [] && data.detectedType !in v.contentTypes then
      Some(UnsupportedType(data.detectedType))
    else
      None
  }

  const UnsupportedPrefix := "Files of type "
  const UnsupportedSuffix := " are not supported."

  /** The message of a content-type rejection, naming the detected type. */
  function UnsupportedTypeMessage(contentType: string): string
  {
    UnsupportedPrefix + contentType + UnsupportedSuffix
  }

  /** The rejected type can be read back from the message. */
  lemma UnsupportedTypeMessageNamesType(contentType: string)
    ensures var m := UnsupportedTypeMessage(contentType);
      |m| == |UnsupportedPrefix| + |contentType| + |UnsupportedSuffix|
      && m[|UnsupportedPrefix|..|m| - |UnsupportedSuffix|] == contentType
  {
    var m := UnsupportedTypeMessage(contentType);
    assert m[|UnsupportedPrefix|..] == contentType + UnsupportedSuffix;
  }

  /** Validator equality as the class defines it: same ceiling and same list of types. */
  predicate SameValidator(a: FileValidator, b: FileValidator)
  {
    a.maxSize == b.maxSize && a.contentTypes == b.contentTypes
  }

  /** Two validators compare equal exactly when they are the same configuration. */
  lemma SameValidatorIsEquality(a: FileValidator, b: FileValidator)
    ensures SameValidator(a, b) <==> a == b
  {
  }

  /** Two validators that compare equal accept and reject exactly the same uploads. */
  lemma SameValidatorSameVerdict(a: FileValidator, b: FileValidator, data: Upload)
    requires SameValidator(a, b)
    ensures CheckFile(a, data) == CheckFile(b, data)
  {
  }

  // ---------------------------------------------------------------------------
  // The page-range filter syntax: `^\d+(-\d+)?$` on each stripped token.

  const PageFilterMessage := "Values must be a range or separate page numbers. E.g. 5, 10-14, 35"

  /** `s` reads as `<digits>-<digits>` with the dash at index `i`. */
  predicate RangeAt(s: string, i: int)
  {
    0 < i < |s| - 1 && s[i] == '-' && AllDigits(s[..i]) && AllDigits(s[i + 1..])
  }

  /** The regular expression `^\d+(-\d+)?$` over ASCII digits, stated without a matcher. */
  ghost predicate MatchesPagePattern(s: string)
  {
    (|s| > 0 && AllDigits(s)) || exists i :: RangeAt(s, i)
  }

  /** The matcher used by the model: a single number, or two numbers around the first dash. */
  predicate IsPageToken(s: string)
  {
    if '-' in s then RangeAt(s, IndexOf(s, '-')) else |s| > 0 && AllDigits(s)
  }

  /** The matcher accepts exactly the strings of the regular expression. */
  lemma IsPageTokenMatchesPattern(s: string)
    ensures IsPageToken(s) <==> MatchesPagePattern(s)
  {
    if exists i :: RangeAt(s, i) {
      var i :| RangeAt(s, i);
      var j := IndexOf(s, '-');
      assert j == i;
    }
  }

  /** A raw token of the filter (as split from the query at commas) is valid after stripping. */
  predicate ValidFilterToken(t: string)
  {
    IsPageToken(Strip(t))
  }

  /**
   The field validator of the page filter: every token must be valid, one bad
   token rejects the whole list with the fixed message, and an accepted list is
   returned as it was given.
   */
  method ValidatePageFilter(value: seq<string>) returns (r: Result<seq<string>, string>)
    ensures r.Ok? <==> forall k :: 0 <= k < |value| ==> ValidFilterToken(value[k])
    ensures r.Ok? ==> r.value == value
    ensures r.Err? ==> r.error == PageFilterMessage
  {
    var validValues := true;
    var i := 0;
    while i < |value|
      invariant 0 <= i <= |value|
      invariant validValues <==> forall k :: 0 <= k < i ==> ValidFilterToken(value[k])
      invariant !validValues ==> i < |value|
    {
      var v := Strip(value[i]);
      if !IsPageToken(v) {
        validValues := false;
        break;
      }
      i := i + 1;
    }
    if !validValues {
      r := Err(PageFilterMessage);
    } else {
      r := Ok(value);
    }
  }
}

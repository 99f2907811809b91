/**
 The history page of the admin (`CustomHistoryAdmin.history_view` in
 `core/admin.py`): the change records of one object, each annotated with the
 change reason of the record just before it, behind a 404 guard for unknown
 objects and a permission guard.
 */
module History {
  import opened Wrappers

  /** One historical record: whose it is, when it was written and why. */
  datatype HistoryRecord = HistoryRecord(objectId: nat, historyDate: int, changeReason: Option<string>)

  /** A record with the reason of the latest earlier record of the same object. */
  datatype Annotated = Annotated(record: HistoryRecord, previousReason: Option<string>)

  /** `history.filter(pk=object_id)`: the object's records, in their order. */
  function ActionList(history: seq<HistoryRecord>, objectId: nat): (r: seq<HistoryRecord>)
    ensures forall e :: e in r <==> e in history && e.objectId == objectId
    ensures |r| <= |history|
    ensures r == [] <==> forall e :: e in history ==> e.objectId != objectId
  {
    if |history| == 0 then []
    else (if history[0].objectId == objectId then [history[0]] else []) + ActionList(history[1..], objectId)
  }

  /**
   The first record, in the order of `records`, among those with the latest
   date strictly before `date`: what `filter(history_date__lt=...)
   .order_by("-history_date")[:1]` selects.
   */
  function LatestBefore(records: seq<HistoryRecord>, date: int): (r: Option<HistoryRecord>)
    ensures r.None? <==> forall e :: e in records ==> e.historyDate >= date
    ensures r.Some? ==> r.value in records && r.value.historyDate < date
    ensures r.Some? ==> forall e :: e in records && e.historyDate < date ==> e.historyDate <= r.value.historyDate
  {
    if |records| == 0 then None
    else
      var rest := LatestBefore(records[1..], date);
      var head := records[0];
      assert forall e :: e in records ==> e == head || e in records[1..];
      if head.historyDate >= date then rest
      else if rest.Some? && rest.value.historyDate > head.historyDate then rest
      else Some(head)
  }

  function ReasonOf(r: Option<HistoryRecord>): Option<string>
  {
    match r
    case Some(e) => e.changeReason
    case None => None
  }

  /** `e` is one of the records with the latest date strictly before `date`. */
  predicate IsLatestBefore(records: seq<HistoryRecord>, date: int, e: HistoryRecord)
  {
    e in records && e.historyDate < date
    && forall f :: f in records && f.historyDate < date ==> f.historyDate <= e.historyDate
  }

  /**
   The `previous_record_reason` annotation of each record of `actions`: the
   change reason of a record with the latest earlier date, or nothing for the
   earliest records.
   */
  function Annotate(actions: seq<HistoryRecord>): (r: seq<Annotated>)
    ensures |r| == |actions|
    ensures forall k :: 0 <= k < |r| ==> r[k].record == actions[k]
    ensures forall k :: 0 <= k < |r| ==>
      ((forall e :: e in actions ==> e.historyDate >= actions[k].historyDate) ==> r[k].previousReason.None?)
    ensures forall k :: 0 <= k < |r| ==>
      ((exists e :: e in actions && e.historyDate < actions[k].historyDate) ==>
        exists e :: IsLatestBefore(actions, actions[k].historyDate, e) && r[k].previousReason == e.changeReason)
  {
    var r := seq(|actions|, k requires 0 <= k < |actions| =>
      Annotated(actions[k], ReasonOf(LatestBefore(actions, actions[k].historyDate))));
    assert forall k :: 0 <= k < |r| && LatestBefore(actions, actions[k].historyDate).Some? ==>
      IsLatestBefore(actions, actions[k].historyDate, LatestBefore(actions, actions[k].historyDate).value);
    r
  }

  /** Dates strictly decreasing: the order simple_history keeps records in. */
  predicate NewestFirst(records: seq<HistoryRecord>)
  {
    forall i, j :: 0 <= i < j < |records| ==> records[i].historyDate > records[j].historyDate
  }

  /** In a newest-first list every record's previous reason is the reason of the record after it. */
  lemma AnnotateNewestFirst(actions: seq<HistoryRecord>, k: nat)
    requires NewestFirst(actions)
    requires k < |actions|
    ensures Annotate(actions)[k].previousReason
         == if k + 1 < |actions| then actions[k + 1].changeReason else None
  {
    var found := LatestBefore(actions, actions[k].historyDate);
    if k + 1 < |actions| {
      assert actions[k + 1] in actions;
      var e := found.value;
      var j :| 0 <= j < |actions| && actions[j] == e;
      assert actions[k + 1].historyDate <= e.historyDate;
      assert j == k + 1;
    } else {
      forall e | e in actions
        ensures e.historyDate >= actions[k].historyDate
      {
        var j :| 0 <= j < |actions| && actions[j] == e;
      }
    }
  }

  // ---------------------------------------------------------------------------
  // The guards.

  datatype Response =
    | Rendered(actions: seq<Annotated>)
    | NotFound
    | Forbidden
    | ServerError

  /**
   The guards and the listing of `history_view`, with `live` the ids of the
   objects that exist. `missing` and `denied` are what the code raises when the
   object has neither a row nor a record, and when the user may not change it.
   */
  function HistoryViewRaising(live: set<nat>, history: seq<HistoryRecord>, objectId: nat, canChange: bool,
                              missing: Response, denied: Response): (r: Response)
  {
    var actions := ActionList(history, objectId);
    if objectId !in live && actions == [] then missing
    else if !canChange then denied
    else Rendered(Annotate(actions))
  }

  /**
   `history_view` as written: `http` and `PermissionDenied` are not imported by
   the module, so either guard fails with a `NameError`, a server error.
   */
  function HistoryViewAsWritten(live: set<nat>, history: seq<HistoryRecord>, objectId: nat, canChange: bool)
    : (r: Response)
    ensures r.Rendered? || r == ServerError
  {
    HistoryViewRaising(live, history, objectId, canChange, ServerError, ServerError)
  }

  /** `history_view` as evidently intended: a 404 for an unknown object, a 403 without permission. */
  function HistoryView(live: set<nat>, history: seq<HistoryRecord>, objectId: nat, canChange: bool)
    : (r: Response)
    ensures r == NotFound <==> objectId !in live && forall e :: e in history ==> e.objectId != objectId
    ensures r == Forbidden <==>
      (objectId in live || exists e :: e in history && e.objectId == objectId) && !canChange
    ensures r.Rendered? <==>
      (objectId in live || exists e :: e in history && e.objectId == objectId) && canChange
    ensures r.Rendered? ==> forall a :: a in r.actions ==> a.record in history && a.record.objectId == objectId
    ensures r != ServerError
  {
    HistoryViewRaising(live, history, objectId, canChange, NotFound, Forbidden)
  }

  /** The history page of an id that never existed ends in a server error instead of a 404. */
  lemma UnknownObjectAsWritten(live: set<nat>, history: seq<HistoryRecord>, objectId: nat, canChange: bool)
    requires objectId !in live
    requires forall e :: e in history ==> e.objectId != objectId
    ensures HistoryViewAsWritten(live, history, objectId, canChange) == ServerError
    ensures HistoryView(live, history, objectId, canChange) == NotFound
  {
  }

  /** The two versions agree on every page they render; they differ only in the error they answer. */
  lemma AsWrittenDiffersOnlyInErrors(live: set<nat>, history: seq<HistoryRecord>, objectId: nat, canChange: bool)
    ensures HistoryView(live, history, objectId, canChange).Rendered?
        ==> HistoryViewAsWritten(live, history, objectId, canChange) == HistoryView(live, history, objectId, canChange)
    ensures !HistoryView(live, history, objectId, canChange).Rendered?
        ==> HistoryViewAsWritten(live, history, objectId, canChange) == ServerError
  {
  }
}

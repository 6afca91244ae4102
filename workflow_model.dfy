/**
 * The change workflow: an ordered list of changes under review for one document,
 * with a workflow status and creation/update times on a logical clock.
 *
 * The pure part (status filters, the review test, lookup of the first change with
 * a given id and the status overwrite it enables) is stated over sequences; the
 * class `ChangeWorkflow` holds the state the workflow updates in place.
 */
module WorkflowModel {
  import opened Wrappers
  import opened ChangeModel

  /** The workflow's own status: active until the applier marks it completed. */
  datatype WorkflowStatus = Active | Completed | Cancelled

  /** The changes of `s` whose status is `st`, in list order. */
  function WithStatus(s: seq<DocumentChange>, st: ChangeStatus): (r: seq<DocumentChange>)
    ensures |r| <= |s|
    ensures forall c :: c in r ==> c in s && c.status == st
    ensures forall c :: c in s && c.status == st ==> c in r
  {
    if s == [] then []
    else (if s[0].status == st then [s[0]] else []) + WithStatus(s[1..], st)
  }

  /** Filtering keeps list order: the filter of a concatenation is the concatenation of the filters. */
  lemma {:induction false} WithStatusAppend(a: seq<DocumentChange>, b: seq<DocumentChange>, st: ChangeStatus)
    ensures WithStatus(a + b, st) == WithStatus(a, st) + WithStatus(b, st)
  {
    if a == [] {
      assert a + b == b;
    } else {
      assert (a + b)[1..] == a[1..] + b;
      WithStatusAppend(a[1..], b, st);
    }
  }

  /** The five status filters partition the list: their sizes add up to its length. */
  lemma {:induction false} StatusPartition(s: seq<DocumentChange>)
    ensures |WithStatus(s, Proposed)| + |WithStatus(s, Accepted)| + |WithStatus(s, Rejected)|
          + |WithStatus(s, Applied)| + |WithStatus(s, Failed)| == |s|
  {
    if s != [] {
      StatusPartition(s[1..]);
    }
  }

  /** A status that records a review decision or its outcome. */
  predicate IsReviewed(st: ChangeStatus) {
    st == Accepted || st == Rejected || st == Applied || st == Failed
  }

  /** Python's `all(c.status in [ACCEPTED, REJECTED, APPLIED, FAILED] for c in s)`. */
  function AllReviewed(s: seq<DocumentChange>): (r: bool)
    ensures r <==> forall i :: 0 <= i < |s| ==> s[i].status != Proposed
    ensures s == [] ==> r
  {
    forall i :: 0 <= i < |s| ==> IsReviewed(s[i].status)
  }

  /** All changes are reviewed exactly when the proposed filter is empty. */
  lemma AllReviewedIffNoneProposed(s: seq<DocumentChange>)
    ensures AllReviewed(s) <==> WithStatus(s, Proposed) == []
  {
    if !AllReviewed(s) {
      var i :| 0 <= i < |s| && s[i].status == Proposed;
      assert s[i] in WithStatus(s, Proposed);
    }
  }

  /** The position of the first change with id `id`, as a front-to-back search finds it. */
  function FirstIndexOfId(s: seq<DocumentChange>, id: ChangeId): (r: Option<nat>)
    ensures r.Some? ==> r.value < |s| && s[r.value].id == id
    ensures r.Some? ==> forall j :: 0 <= j < r.value ==> s[j].id != id
    ensures r.None? ==> forall j :: 0 <= j < |s| ==> s[j].id != id
  {
    if s == [] then None
    else if s[0].id == id then Some(0)
    else
      match FirstIndexOfId(s[1..], id)
      case None => None
      case Some(k) => Some(k + 1)
  }

  /** `r` and `s` hold changes with the same ids, position by position. */
  predicate SameIds(r: seq<DocumentChange>, s: seq<DocumentChange>) {
    |r| == |s| && forall j :: 0 <= j < |s| ==> r[j].id == s[j].id
  }

  /** Lookup depends on nothing but the ids. */
  lemma {:induction false} FirstIndexDependsOnIds(r: seq<DocumentChange>, s: seq<DocumentChange>, id: ChangeId)
    requires SameIds(r, s)
    ensures FirstIndexOfId(r, id) == FirstIndexOfId(s, id)
  {
    if s != [] && s[0].id != id {
      FirstIndexDependsOnIds(r[1..], s[1..], id);
    }
  }

  /** The status of the change `get_change_by_id` finds, if any. */
  function StatusOf(s: seq<DocumentChange>, id: ChangeId): Option<ChangeStatus> {
    match FirstIndexOfId(s, id)
    case None => None
    case Some(i) => Some(s[i].status)
  }

  /**
   * The list after `update_change_status(id, st)`: the first change with that id
   * takes status `st`; with no such change the list is unchanged.
   */
  function SetStatusById(s: seq<DocumentChange>, id: ChangeId, st: ChangeStatus): (r: seq<DocumentChange>)
    ensures SameIds(r, s)
    ensures forall j :: 0 <= j < |s| ==> r[j] == s[j].(status := r[j].status)
    ensures FirstIndexOfId(s, id).None? ==> r == s
  {
    match FirstIndexOfId(s, id)
    case None => s
    case Some(i) => s[i := s[i].(status := st)]
  }

  /**
   * After a status overwrite, the looked-up change for `id` has the new status
   * (when there was one), and every other id looks up the status it had.
   */
  lemma StatusAfterSet(s: seq<DocumentChange>, id: ChangeId, st: ChangeStatus, other: ChangeId)
    ensures StatusOf(SetStatusById(s, id, st), other)
         == if other == id && StatusOf(s, id).Some? then Some(st) else StatusOf(s, other)
  {
    FirstIndexDependsOnIds(SetStatusById(s, id, st), s, other);
  }

  /** A status overwrite leaves the looked-up status of every other id as it was. */
  lemma StatusAfterSetOthers(s: seq<DocumentChange>, id: ChangeId, st: ChangeStatus)
    ensures forall other :: other != id ==> StatusOf(SetStatusById(s, id, st), other) == StatusOf(s, other)
  {
    forall other | other != id {
      StatusAfterSet(s, id, st, other);
    }
  }

  /**
   * Appending a change leaves every status lookup that already succeeded as it was;
   * only an id not yet present can now find the new change.
   */
  lemma {:induction false} StatusAfterAppend(s: seq<DocumentChange>, c: DocumentChange, id: ChangeId)
    ensures StatusOf(s + [c], id)
         == if StatusOf(s, id).Some? then StatusOf(s, id)
            else if c.id == id then Some(c.status) else None
  {
    if s != [] && s[0].id != id {
      assert (s + [c])[1..] == s[1..] + [c];
      StatusAfterAppend(s[1..], c, id);
    }
  }

  /**
   * A workflow of changes to one document. Times are ticks of a logical clock;
   * every successful update moves `updatedAt` forward by one tick.
   */
  class ChangeWorkflow {
    var workflowId: string
    var documentId: string
    var changes: seq<DocumentChange>
    var createdAt: nat
    var updatedAt: nat
    var status: WorkflowStatus
    var metadata: map<string, string>

    /** The update time never precedes the creation time. */
    ghost predicate Valid()
      reads this
    {
      createdAt <= updatedAt
    }

    /** A new, active workflow with no changes, created and updated at `now`. */
    constructor (workflowId: string, documentId: string, now: nat)
      ensures Valid()
      ensures this.workflowId == workflowId && this.documentId == documentId
      ensures changes == [] && status == Active && metadata == map[]
      ensures createdAt == now && updatedAt == now
    {
      this.workflowId := workflowId;
      this.documentId := documentId;
      changes := [];
      createdAt := now;
      updatedAt := now;
      status := Active;
      metadata := map[];
    }

    /** `add_change`: appends the change and moves the update time on. */
    method AddChange(change: DocumentChange)
      requires Valid()
      modifies this
      ensures Valid()
      ensures changes == old(changes) + [change]
      ensures updatedAt == old(updatedAt) + 1
      ensures workflowId == old(workflowId) && documentId == old(documentId)
      ensures createdAt == old(createdAt) && status == old(status) && metadata == old(metadata)
    {
      changes := changes + [change];
      updatedAt := updatedAt + 1;
    }

    /** The front-to-back search of `get_change_by_id`, returning the position found. */
    method IndexOfChange(id: ChangeId) returns (r: Option<nat>)
      ensures r == FirstIndexOfId(changes, id)
    {
      var i := 0;
      while i < |changes|
        invariant 0 <= i <= |changes|
        invariant forall j :: 0 <= j < i ==> changes[j].id != id
      {
        if changes[i].id == id {
          return Some(i);
        }
        i := i + 1;
      }
      return None;
    }

    /** `get_change_by_id`: the first change with id `id`, or none when no change has it. */
    method GetChangeById(id: ChangeId) returns (r: Option<DocumentChange>)
      ensures r.None? <==> forall c :: c in changes ==> c.id != id
      ensures r.Some? ==> r.value.id == id && r.value in changes
      ensures r.Some? ==> r == Some(changes[FirstIndexOfId(changes, id).value])
    {
      var k := IndexOfChange(id);
      if k.Some? {
        r := Some(changes[k.value]);
      } else {
        r := None;
      }
    }

    /**
     * `update_change_status`: overwrites the status of the first change with id
     * `id` with any status at all (there is no transition check), moves the update
     * time on and reports success; an unknown id changes nothing and reports failure.
     */
    method UpdateChangeStatus(id: ChangeId, newStatus: ChangeStatus) returns (ok: bool)
      requires Valid()
      modifies this
      ensures Valid()
      ensures ok <==> exists j :: 0 <= j < |old(changes)| && old(changes)[j].id == id
      ensures ok == FirstIndexOfId(old(changes), id).Some?
      ensures changes == SetStatusById(old(changes), id, newStatus)
      ensures updatedAt == if ok then old(updatedAt) + 1 else old(updatedAt)
      ensures workflowId == old(workflowId) && documentId == old(documentId)
      ensures createdAt == old(createdAt) && status == old(status) && metadata == old(metadata)
    {
      var k := IndexOfChange(id);
      if k.Some? {
        var i := k.value;
        changes := changes[i := changes[i].(status := newStatus)];
        updatedAt := updatedAt + 1;
        ok := true;
      } else {
        ok := false;
      }
    }

    /** `get_changes_by_status`: exactly the changes with status `st`, in list order. */
    function ChangesByStatus(st: ChangeStatus): (r: seq<DocumentChange>)
      reads this
      ensures forall c :: c in r <==> c in changes && c.status == st
    {
      WithStatus(changes, st)
    }

    /** `all_changes_reviewed`: no change is still proposed (true for an empty workflow). */
    function AllChangesReviewed(): (r: bool)
      reads this
      ensures r <==> forall i :: 0 <= i < |changes| ==> changes[i].status != Proposed
    {
      AllReviewed(changes)
    }

    /** `get_accepted_changes` */
    function AcceptedChanges(): (r: seq<DocumentChange>)
      reads this
      ensures forall c :: c in r <==> c in changes && c.status == Accepted
    {
      ChangesByStatus(Accepted)
    }

    /** `get_rejected_changes` */
    function RejectedChanges(): (r: seq<DocumentChange>)
      reads this
      ensures forall c :: c in r <==> c in changes && c.status == Rejected
    {
      ChangesByStatus(Rejected)
    }

    /** `get_proposed_changes` */
    function ProposedChanges(): (r: seq<DocumentChange>)
      reads this
      ensures forall c :: c in r <==> c in changes && c.status == Proposed
    {
      ChangesByStatus(Proposed)
    }
  }
}

/** The soft-delete pattern every manager repeats: rows carry a `deleted` flag,
    a confirmation dialog holds the pending delete or restore, and confirming it
    dispatches one store call. */
module Lifecycle {
  import opened Values
  import opened Seqs

  datatype Action = DeleteAction | RestoreAction

  /** The `modalConfig` state of a manager. */
  datatype Modal = Modal(isOpen: bool, id: Option<string>, action: Action, name: string)

  /** The initial `modalConfig`: `{ isOpen: false, id: null, action: 'delete', name: '' }`. */
  const ClosedModal := Modal(false, None, DeleteAction, "")

  /** A call into an entity store's soft-delete boundary. */
  datatype StoreCall = DeleteCall(id: string) | RestoreCall(id: string)

  function CallFor(action: Action, id: string): (c: StoreCall)
    ensures c.id == id
    ensures c.DeleteCall? <==> action == DeleteAction
  {
    if action == DeleteAction then DeleteCall(id) else RestoreCall(id)
  }

  /** How a manager's `executeAction` treats the dialog after the call resolves:
      `{ ...modalConfig, isOpen: false }` or the initial `modalConfig`. */
  datatype CloseStyle = KeepFields | ResetToDefault

  /** The two ways the managers' `executeAction` differ from each other. */
  datatype Policy = Policy(onSuccess: CloseStyle, catchesErrors: bool)

  function Closed(m: Modal, style: CloseStyle): (r: Modal)
    ensures !r.isOpen
    ensures style == KeepFields ==> r.id == m.id && r.action == m.action && r.name == m.name
    ensures style == ResetToDefault ==> r == ClosedModal
  {
    if style == KeepFields then m.(isOpen := false) else ClosedModal
  }

  /** The buttons a row offers. */
  datatype RowAction = Edit | Delete | Restore | View

  /** The actions of a row in a screen only administrators reach: an active row
      can be edited or deleted, a deleted row can only be restored. */
  function LifecycleActions(deleted: bool): (r: set<RowAction>)
    ensures Edit in r <==> !deleted
    ensures Delete in r <==> !deleted
    ensures Restore in r <==> deleted
    ensures View !in r
  {
    if deleted then {Restore} else {Edit, Delete}
  }

  /** Every row offers exactly one of the two lifecycle transitions, the one
      leaving its current state: delete from active, restore from deleted. */
  lemma OneTransitionPerRow(deleted: bool)
    ensures (Delete in LifecycleActions(deleted)) != (Restore in LifecycleActions(deleted))
    ensures Delete in LifecycleActions(deleted) ==> !deleted
    ensures Restore in LifecycleActions(deleted) ==> deleted
  {
  }

  /** The show-deleted filter: all rows, or the order-preserving subsequence of
      the rows whose flag is off. */
  function Visible<T(==,!new)>(rows: seq<T>, isDeleted: T -> bool, showDeleted: bool): (r: seq<T>)
    ensures IsSubsequence(r, rows)
    ensures showDeleted ==> r == rows
    ensures !showDeleted ==> forall x :: x in r <==> x in rows && !isDeleted(x)
    ensures !showDeleted ==> forall x :: multiset(r)[x] == if isDeleted(x) then 0 else multiset(rows)[x]
  {
    if showDeleted then FilterKeepsAll(rows, x => true); Filter(rows, x => true)
    else Filter(rows, x => !isDeleted(x))
  }

  /** Rows that are all active are shown as they are, deleted rows hidden or not. */
  lemma {:induction false} ActiveRowsAllVisible<T(!new)>(rows: seq<T>, isDeleted: T -> bool)
    requires forall x :: x in rows ==> !isDeleted(x)
    ensures Visible(rows, isDeleted, false) == rows
    decreases |rows|
  {
    if rows != [] {
      ActiveRowsAllVisible(rows[1..], isDeleted);
    }
  }

  /** Hiding deleted rows a second time changes nothing. */
  lemma HidingIsIdempotent<T(!new)>(rows: seq<T>, isDeleted: T -> bool)
    ensures Visible(Visible(rows, isDeleted, false), isDeleted, false) == Visible(rows, isDeleted, false)
  {
    ActiveRowsAllVisible(Visible(rows, isDeleted, false), isDeleted);
  }

  /** The confirmation dialog of one manager and the store calls it has made. */
  class ConfirmDialog {
    var modal: Modal
    var isActionLoading: bool
    var calls: seq<StoreCall>

    constructor ()
      ensures modal == ClosedModal && !isActionLoading && calls == []
    {
      modal := ClosedModal;
      isActionLoading := false;
      calls := [];
    }

    /** `openDeleteModal` / `openRestoreModal`: ask to confirm `action` on a row. */
    method Open(id: string, name: string, action: Action)
      modifies this
      ensures modal == Modal(true, Some(id), action, name)
      ensures isActionLoading == old(isActionLoading) && calls == old(calls)
    {
      modal := Modal(true, Some(id), action, name);
    }

    /** The dialog's cancel: `{ ...modalConfig, isOpen: false }` or the initial
        `modalConfig`, as the manager chooses; no call is made. */
    method Dismiss(style: CloseStyle)
      modifies this
      ensures modal == Closed(old(modal), style)
      ensures isActionLoading == old(isActionLoading) && calls == old(calls)
    {
      modal := Closed(modal, style);
    }

    /** `executeAction`: with no pending id nothing happens; otherwise exactly one
        delete or restore call is made, the dialog closes only if it resolves, and
        the loading flag is cleared whatever the outcome. */
    method ExecuteAction(reply: Attempt<()>, policy: Policy) returns (h: HandlerResult)
      modifies this
      ensures !IsTruthy(old(modal.id)) ==>
        h == Skipped && modal == old(modal) && calls == old(calls)
        && isActionLoading == old(isActionLoading)
      ensures IsTruthy(old(modal.id)) ==>
        calls == old(calls) + [CallFor(old(modal.action), old(modal.id.value))] && !isActionLoading
      ensures IsTruthy(old(modal.id)) && reply.Returns? ==>
        h == Done && modal == Closed(old(modal), policy.onSuccess)
      ensures IsTruthy(old(modal.id)) && reply.Throws? ==>
        modal == old(modal)
        && h == (if policy.catchesErrors then Caught(reply.message) else Rethrown(reply.message))
    {
      if !IsTruthy(modal.id) {
        return Skipped;
      }
      isActionLoading := true;
      calls := calls + [CallFor(modal.action, modal.id.value)];
      if reply.Returns? {
        modal := Closed(modal, policy.onSuccess);
        h := Done;
      } else if policy.catchesErrors {
        h := Caught(reply.message);
      } else {
        h := Rethrown(reply.message);
      }
      isActionLoading := false;
    }
  }
}

/** The user-rule administration screen: a list of rules with a show-deleted
    switch, a create/edit form and soft delete/restore. */
module UserRuleManager {
  import opened Values
  import opened Seqs
  import opened Lifecycle

  datatype UserRule = UserRule(id: string, ruleName: string, description: string, enabled: bool, deleted: bool)

  /** The form's `formData`. */
  datatype RuleForm = RuleForm(ruleName: string, description: string, enabled: bool)

  const NewRuleForm := RuleForm("", "", true)

  /** A call of `saveRule`: the rule being edited, if any, and the form. */
  datatype RuleCall = SaveRule(editingId: Option<string>, form: RuleForm)

  /** `displayedRules`: every rule, or only the rules not deleted. */
  function DisplayedRules(rules: seq<UserRule>, showDeleted: bool): (r: seq<UserRule>)
    ensures IsSubsequence(r, rules)
    ensures showDeleted ==> r == rules
    ensures !showDeleted ==> forall x :: x in r <==> x in rules && !x.deleted
    ensures !showDeleted ==> forall x :: multiset(r)[x] == if x.deleted then 0 else multiset(rules)[x]
  {
    Visible(rules, (x: UserRule) => x.deleted, showDeleted)
  }

  /** Hiding deleted rules from a list that already hides them changes nothing. */
  lemma HidingDeletedIsIdempotent(rules: seq<UserRule>)
    ensures DisplayedRules(DisplayedRules(rules, false), false) == DisplayedRules(rules, false)
  {
    HidingIsIdempotent(rules, (x: UserRule) => x.deleted);
  }

  /** The form an edit starts from: exactly the rule's name, description and switch. */
  function EditForm(rule: UserRule): (f: RuleForm)
    ensures f.ruleName == rule.ruleName && f.description == rule.description && f.enabled == rule.enabled
  {
    RuleForm(rule.ruleName, rule.description, rule.enabled)
  }

  class RulePage {
    var editingId: Option<string>
    var formData: RuleForm
    var isFormOpen: bool
    var isSaving: bool
    var calls: seq<RuleCall>
    const dialog: ConfirmDialog

    constructor ()
      ensures editingId.None? && formData == NewRuleForm && !isFormOpen && !isSaving && calls == []
      ensures fresh(dialog) && dialog.modal == ClosedModal && dialog.calls == []
    {
      editingId := None;
      formData := NewRuleForm;
      isFormOpen := false;
      isSaving := false;
      calls := [];
      dialog := new ConfirmDialog();
    }

    method HandleCreate()
      modifies this`editingId, this`formData, this`isFormOpen
      ensures editingId.None? && formData == NewRuleForm && isFormOpen
    {
      editingId := None;
      formData := NewRuleForm;
      isFormOpen := true;
    }

    method HandleEdit(rule: UserRule)
      modifies this`editingId, this`formData, this`isFormOpen
      ensures editingId == Some(rule.id) && formData == EditForm(rule) && isFormOpen
    {
      editingId := Some(rule.id);
      formData := RuleForm(rule.ruleName, rule.description, rule.enabled);
      isFormOpen := true;
    }

    /** `handleSave`: one `saveRule` call with the form as it is; the form closes
        only when the call reports success, and a rejection leaves the handler. */
    method HandleSave(reply: Attempt<bool>) returns (h: HandlerResult)
      modifies this`isSaving, this`isFormOpen, this`calls
      ensures calls == old(calls) + [SaveRule(editingId, formData)] && !isSaving
      ensures isFormOpen <==> old(isFormOpen) && reply != Returns(true)
      ensures h == (if reply.Throws? then Rethrown(reply.message) else Done)
    {
      isSaving := true;
      calls := calls + [SaveRule(editingId, formData)];
      if reply.Throws? {
        h := Rethrown(reply.message);
      } else {
        if reply.value {
          isFormOpen := false;
        }
        h := Done;
      }
      isSaving := false;
    }

    /** The row buttons that ask to delete or restore a rule, named by its rule name. */
    method OpenModal(rule: UserRule, action: Action)
      modifies dialog
      ensures dialog.modal == Modal(true, Some(rule.id), action, rule.ruleName)
      ensures dialog.calls == old(dialog.calls)
    {
      dialog.Open(rule.id, rule.ruleName, action);
    }

    /** The dialog's cancel: it closes keeping its fields, and no call is made. */
    method DismissModal()
      modifies dialog
      ensures dialog.modal == old(dialog.modal).(isOpen := false)
      ensures dialog.calls == old(dialog.calls)
    {
      dialog.Dismiss(KeepFields);
    }

    /** The confirmation: the dialog keeps its fields when it closes and a
        rejection leaves the handler with the dialog still open. */
    method ExecuteAction(reply: Attempt<()>) returns (h: HandlerResult)
      modifies dialog
      ensures !IsTruthy(old(dialog.modal.id)) ==>
        h == Skipped && dialog.calls == old(dialog.calls) && dialog.modal == old(dialog.modal)
        && dialog.isActionLoading == old(dialog.isActionLoading)
      ensures IsTruthy(old(dialog.modal.id)) ==>
        dialog.calls == old(dialog.calls) + [CallFor(old(dialog.modal.action), old(dialog.modal.id.value))]
        && !dialog.isActionLoading
      ensures IsTruthy(old(dialog.modal.id)) && reply.Returns? ==>
        h == Done && dialog.modal == old(dialog.modal).(isOpen := false)
      ensures IsTruthy(old(dialog.modal.id)) && reply.Throws? ==>
        h == Rethrown(reply.message) && dialog.modal == old(dialog.modal)
    {
      h := dialog.ExecuteAction(reply, Policy(KeepFields, false));
    }
  }
}

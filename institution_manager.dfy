/** The institution administration screen: the create/edit form with its
    address and manager sections, the submit that dispatches to add or update,
    soft delete/restore, and which row buttons an administrator sees. */
module InstitutionManager {
  import opened Values
  import opened Lifecycle

  /** The form's `address`; fields copied from a stored institution may be missing. */
  datatype Address = Address(
    addressLine1: Option<string>,
    city: Option<string>,
    stateProvince: Option<string>,
    postalCode: Option<string>,
    country: Option<string>)

  const EmptyAddress := Address(Some(""), Some(""), Some(""), Some(""), Some(""))

  /** The form's `manager` registration record. */
  datatype ManagerDraft = ManagerDraft(
    firstName: Option<string>,
    lastName: Option<string>,
    email: Option<string>,
    password: string,
    addressLine1: string,
    city: string,
    postalCode: string,
    country: string)

  const EmptyManager := ManagerDraft(Some(""), Some(""), Some(""), "", "", "", "", "")

  /** The manager attached to a fetched institution. */
  datatype ManagerInfo = ManagerInfo(firstName: Option<string>, lastName: Option<string>, email: Option<string>)

  /** The joined `institution_types` record of a fetched institution. */
  datatype TypeRef = TypeRef(id: Option<string>)

  datatype Institution = Institution(
    id: string,
    name: string,
    typeId: Option<string>,
    institutionTypes: Option<TypeRef>,
    addresses: Option<Address>,
    manager: Option<ManagerInfo>,
    deleted: bool)

  /** The institution record sent to the store. */
  datatype Payload = Payload(name: string, typeId: Option<string>)

  /** The calls the form makes into the institution store. */
  datatype InstitutionCall =
    | AddInstitution(payload: Payload, address: Option<Address>, manager: ManagerDraft)
    | UpdateInstitution(id: string, payload: Payload, address: Option<Address>, manager: ManagerDraft)

  /** Everything the form shows, including the country and state dropdowns. */
  datatype FormState = FormState(
    editingId: Option<string>,
    newName: string,
    newTypeId: string,
    address: Address,
    manager: ManagerDraft,
    selectedCountry: string,
    selectedState: string,
    showForm: bool)

  /** The form after `resetForm`. */
  const ClearedForm := FormState(None, "", "", EmptyAddress, EmptyManager, "", "", false)

  // ------------------------------------------------------------ submit

  /** `{ name, type_id: newTypeId || undefined }`. */
  function MakePayload(name: string, typeId: string): (p: Payload)
    ensures p.name == name
    ensures p.typeId.None? <==> typeId == ""
    ensures p.typeId.Some? ==> p.typeId.value == typeId
  {
    Payload(name, if typeId != "" then Some(typeId) else None)
  }

  /** `hasAddress`: a street, a city or a country has been given. */
  predicate HasAddress(a: Address)
  {
    IsTruthy(a.addressLine1) || IsTruthy(a.city) || IsTruthy(a.country)
  }

  /** The address argument of the store call: the form's address, or none. */
  function AddressSent(a: Address): (r: Option<Address>)
    ensures r.Some? ==> r.value == a
    ensures r.Some? <==> IsTruthy(a.addressLine1) || IsTruthy(a.city) || IsTruthy(a.country)
  {
    if HasAddress(a) then Some(a) else None
  }

  /** The postal code and the state never decide whether the address is sent. */
  lemma PostalCodeAndStateIgnored(a: Address, postalCode: Option<string>, stateProvince: Option<string>)
    ensures AddressSent(a.(postalCode := postalCode, stateProvince := stateProvince)).Some?
        == AddressSent(a).Some?
  {
  }

  /** Update the institution being edited, or add a new one. */
  function SubmitCall(editingId: Option<string>, payload: Payload, address: Option<Address>,
                      manager: ManagerDraft): (c: InstitutionCall)
    ensures c.payload == payload && c.address == address && c.manager == manager
    ensures c.UpdateInstitution? <==> IsTruthy(editingId)
    ensures c.UpdateInstitution? ==> c.id == editingId.value
  {
    if IsTruthy(editingId) then UpdateInstitution(editingId.value, payload, address, manager)
    else AddInstitution(payload, address, manager)
  }

  // ------------------------------------------------------------ edit

  /** `i.type_id || i.institution_types?.id || ''`. */
  function ResolveTypeId(i: Institution): (r: string)
    ensures IsTruthy(i.typeId) ==> r == i.typeId.value
    ensures !IsTruthy(i.typeId) && i.institutionTypes.Some? && IsTruthy(i.institutionTypes.value.id) ==>
      r == i.institutionTypes.value.id.value
    ensures r == "" <==>
      !IsTruthy(i.typeId) && !(i.institutionTypes.Some? && IsTruthy(i.institutionTypes.value.id))
  {
    if IsTruthy(i.typeId) then i.typeId.value
    else if i.institutionTypes.Some? && IsTruthy(i.institutionTypes.value.id) then i.institutionTypes.value.id.value
    else ""
  }

  /** The manager section filled from a fetched institution: the names and the
      e-mail are copied, the password and the manager's own address are blank. */
  function ManagerFor(i: Institution): (m: ManagerDraft)
    ensures m.password == "" && m.addressLine1 == "" && m.city == "" && m.postalCode == "" && m.country == ""
    ensures i.manager.Some? ==>
      m.firstName == i.manager.value.firstName && m.lastName == i.manager.value.lastName
      && m.email == i.manager.value.email
    ensures i.manager.None? ==> m == EmptyManager
  {
    if i.manager.Some? then
      ManagerDraft(i.manager.value.firstName, i.manager.value.lastName, i.manager.value.email, "", "", "", "", "")
    else EmptyManager
  }

  /** The form `handleEditClick` opens for `i`; `keptState` is the state dropdown
      before the click, which a stored address does not set straight away. */
  function EditForm(i: Institution, keptState: string): (f: FormState)
    ensures f.showForm && f.editingId == Some(i.id) && f.newName == i.name
    ensures f.newTypeId == ResolveTypeId(i)
    ensures f.manager == ManagerFor(i)
    ensures i.addresses.Some? ==>
      f.address == i.addresses.value && f.selectedCountry == OrEmpty(i.addresses.value.country)
      && f.selectedState == keptState
    ensures i.addresses.None? ==> f.address == EmptyAddress && f.selectedCountry == "" && f.selectedState == ""
  {
    FormState(Some(i.id), i.name, ResolveTypeId(i),
      if i.addresses.Some? then i.addresses.value else EmptyAddress,
      ManagerFor(i),
      if i.addresses.Some? then OrEmpty(i.addresses.value.country) else "",
      if i.addresses.Some? then keptState else "",
      true)
  }

  /** Opening a row for edit and submitting it unchanged updates that row,
      keeps its type, sends its address exactly when the stored one has a street,
      a city or a country, and sends a blank manager password. */
  lemma SubmitAfterEdit(i: Institution, keptState: string)
    requires i.id != "" && i.name != ""
    ensures var f := EditForm(i, keptState);
      var c := SubmitCall(f.editingId, MakePayload(f.newName, f.newTypeId), AddressSent(f.address), f.manager);
      c == UpdateInstitution(i.id, c.payload, c.address, c.manager)
      && c.payload.name == i.name
      && (c.payload.typeId.Some? <==> ResolveTypeId(i) != "")
      && (c.address.Some? <==> i.addresses.Some? && HasAddress(i.addresses.value))
      && c.manager.password == ""
  {
  }

  // ------------------------------------------------------------ row actions

  /** The row buttons: view always; edit and delete on an active row and restore
      on a deleted one, for an administrator only. */
  function InstitutionActions(deleted: bool, isAdmin: bool): (r: set<RowAction>)
    ensures View in r
    ensures Edit in r <==> isAdmin && !deleted
    ensures Delete in r <==> isAdmin && !deleted
    ensures Restore in r <==> isAdmin && deleted
  {
    (if isAdmin then LifecycleActions(deleted) else {}) + {View}
  }

  // ------------------------------------------------------------ the screen

  class InstitutionPage {
    var editingId: Option<string>
    var newName: string
    var newTypeId: string
    var address: Address
    var manager: ManagerDraft
    var selectedCountry: string
    var selectedState: string
    var showForm: bool
    var isSubmitting: bool
    var calls: seq<InstitutionCall>
    const dialog: ConfirmDialog

    constructor ()
      ensures Form() == ClearedForm && !isSubmitting && calls == []
      ensures fresh(dialog) && dialog.modal == ClosedModal && dialog.calls == []
    {
      editingId := None;
      newName := "";
      newTypeId := "";
      address := EmptyAddress;
      manager := EmptyManager;
      selectedCountry := "";
      selectedState := "";
      showForm := false;
      isSubmitting := false;
      calls := [];
      dialog := new ConfirmDialog();
    }

    function Form(): FormState
      reads this
    {
      FormState(editingId, newName, newTypeId, address, manager, selectedCountry, selectedState, showForm)
    }

    method ResetForm()
      modifies this`editingId, this`newName, this`newTypeId, this`address, this`manager,
               this`selectedCountry, this`selectedState, this`showForm
      ensures Form() == ClearedForm
    {
      editingId := None;
      newName := "";
      newTypeId := "";
      address := EmptyAddress;
      manager := EmptyManager;
      selectedCountry := "";
      selectedState := "";
      showForm := false;
    }

    method HandleEditClick(i: Institution)
      modifies this`editingId, this`newName, this`newTypeId, this`address, this`manager,
               this`selectedCountry, this`selectedState, this`showForm
      ensures Form() == EditForm(i, old(selectedState))
    {
      editingId := Some(i.id);
      newName := i.name;
      newTypeId := ResolveTypeId(i);
      if i.addresses.Some? {
        address := i.addresses.value;
        selectedCountry := OrEmpty(i.addresses.value.country);
      } else {
        address := EmptyAddress;
        selectedCountry := "";
        selectedState := "";
      }
      if i.manager.Some? {
        manager := ManagerDraft(i.manager.value.firstName, i.manager.value.lastName, i.manager.value.email,
                                "", "", "", "", "");
      } else {
        manager := EmptyManager;
      }
      showForm := true;
    }

    /** The header button: clears and closes an open form, or opens it as it was left. */
    method ToggleForm()
      modifies this`editingId, this`newName, this`newTypeId, this`address, this`manager,
               this`selectedCountry, this`selectedState, this`showForm
      ensures old(showForm) ==> Form() == ClearedForm
      ensures !old(showForm) ==> Form() == old(Form()).(showForm := true)
    {
      if showForm {
        ResetForm();
      } else {
        showForm := true;
      }
    }

    /** `handleSubmit`: an empty name makes no call; otherwise one add or update
        call, and the form is reset only when it resolves. A rejection leaves
        the handler with the form as it was. */
    method HandleSubmit(reply: Attempt<()>) returns (h: HandlerResult)
      modifies this`editingId, this`newName, this`newTypeId, this`address, this`manager,
               this`selectedCountry, this`selectedState, this`showForm, this`isSubmitting, this`calls
      ensures old(newName) == "" ==>
        h == Skipped && Form() == old(Form()) && calls == old(calls) && isSubmitting == old(isSubmitting)
      ensures old(newName) != "" ==>
        calls == old(calls) + [SubmitCall(old(editingId), MakePayload(old(newName), old(newTypeId)),
                                          AddressSent(old(address)), old(manager))]
        && !isSubmitting
      ensures old(newName) != "" && reply.Returns? ==> h == Done && Form() == ClearedForm
      ensures old(newName) != "" && reply.Throws? ==> h == Rethrown(reply.message) && Form() == old(Form())
    {
      if newName == "" {
        return Skipped;
      }
      isSubmitting := true;
      var payload := MakePayload(newName, newTypeId);
      var sentAddress := if HasAddress(address) then Some(address) else None;
      if IsTruthy(editingId) {
        calls := calls + [UpdateInstitution(editingId.value, payload, sentAddress, manager)];
      } else {
        calls := calls + [AddInstitution(payload, sentAddress, manager)];
      }
      if reply.Throws? {
        h := Rethrown(reply.message);
      } else {
        ResetForm();
        h := Done;
      }
      isSubmitting := false;
    }

    /** The row buttons that ask to delete or restore an institution, named by its name. */
    method OpenModal(i: Institution, action: Action)
      modifies dialog
      ensures dialog.modal == Modal(true, Some(i.id), action, i.name)
      ensures dialog.calls == old(dialog.calls)
    {
      dialog.Open(i.id, i.name, action);
    }

    /** The dialog's cancel: it closes keeping its fields, and no call is made. */
    method DismissModal()
      modifies dialog
      ensures dialog.modal == old(dialog.modal).(isOpen := false)
      ensures dialog.calls == old(dialog.calls)
    {
      dialog.Dismiss(KeepFields);
    }

    /** The confirmation: the dialog keeps its fields when it closes; a rejection
        is caught and the dialog stays open. */
    method ExecuteAction(reply: Attempt<()>) returns (h: HandlerResult)
      modifies dialog
      ensures !IsTruthy(old(dialog.modal.id)) ==>
        h == Skipped && dialog.calls == old(dialog.calls) && dialog.modal == old(dialog.modal)
        && dialog.isActionLoading == old(dialog.isActionLoading)
      ensures IsTruthy(old(dialog.modal.id)) ==>
        dialog.calls == old(dialog.calls) + [CallFor(old(dialog.modal.action), old(dialog.modal.id.value))]
        && !dialog.isActionLoading
      ensures IsTruthy(old(dialog.modal.id)) && reply.Returns? ==>
        h == Done && dialog.modal == old(dialog.modal).(isOpen := false)
      ensures IsTruthy(old(dialog.modal.id)) && reply.Throws? ==>
        h == Caught(reply.message) && dialog.modal == old(dialog.modal)
    {
      h := dialog.ExecuteAction(reply, Policy(KeepFields, true));
    }
  }
}

/** The institution-type administration screen: a searchable, paginated list of
    types with a one-field create/edit form and soft delete/restore. */
module InstitutionTypeManager {
  import opened Values
  import opened Seqs
  import opened Text
  import opened Lifecycle

  datatype InstitutionType = InstitutionType(id: string, name: string, deleted: bool)

  /** The calls the form makes into the type store. */
  datatype TypeCall = AddType(name: string) | UpdateType(id: string, name: string)

  // ------------------------------------------------------------ filtering

  /** The name contains the lower-cased, trimmed search term, ignoring case. */
  predicate NameMatches(t: InstitutionType, searchTerm: string)
  {
    Contains(ToLower(t.name), Trim(ToLower(searchTerm)))
  }

  /** `filteredTypes`: a blank search keeps every type, any other search keeps
      the types whose name matches it; unless deleted types are shown they are
      dropped. The order of the store is kept. */
  function FilteredTypes(types: seq<InstitutionType>, searchTerm: string, showDeleted: bool): (r: seq<InstitutionType>)
    ensures IsSubsequence(r, types)
    ensures forall t :: t in r <==>
      t in types && (IsBlank(searchTerm) || NameMatches(t, searchTerm)) && (showDeleted || !t.deleted)
    ensures forall t :: multiset(r)[t] ==
                        if (IsBlank(searchTerm) || NameMatches(t, searchTerm)) && (showDeleted || !t.deleted)
                        then multiset(types)[t] else 0
  {
    TrimEmptyIffBlank(searchTerm);
    var searched := if Trim(searchTerm) != "" then Filter(types, (t: InstitutionType) => NameMatches(t, searchTerm)) else types;
    SubsequenceReflexive(types);
    var r := if !showDeleted then Filter(searched, (t: InstitutionType) => !t.deleted) else searched;
    SubsequenceReflexive(searched);
    SubsequenceTransitive(r, searched, types);
    r
  }

  /** A blank search with deleted types shown lists the store as it is. */
  lemma BlankSearchKeepsAll(types: seq<InstitutionType>, searchTerm: string)
    requires IsBlank(searchTerm)
    ensures FilteredTypes(types, searchTerm, true) == types
  {
    TrimEmptyIffBlank(searchTerm);
  }

  // ------------------------------------------------------------ pagination

  function Min(a: int, b: int): int
  {
    if a <= b then a else b
  }

  function Max(a: int, b: int): int
  {
    if a >= b then a else b
  }

  lemma MulMonotone(a: int, b: int, per: nat)
    requires a <= b
    ensures a * per <= b * per
  {
  }

  /** Where page `page` starts, relative to the `n` items. */
  lemma PageStart(n: nat, page: int, per: nat)
    requires per > 0
    ensures (page - 1) * per + per == page * per
    ensures 1 <= page <= TotalPages(n, per) ==> 0 <= (page - 1) * per < n
    ensures page > TotalPages(n, per) ==> (page - 1) * per >= n
  {
    var T := TotalPages(n, per);
    TotalPagesIsCeiling(n, per);
    if 1 <= page <= T {
      MulMonotone(0, page - 1, per);
      MulMonotone(page - 1, T - 1, per);
    } else if page > T {
      MulMonotone(T, page - 1, per);
    }
  }

  /** `Math.ceil(n / per)`. */
  function TotalPages(n: nat, per: nat): nat
    requires per > 0
    decreases n
  {
    if n == 0 then 0
    else if n <= per then 1
    else 1 + TotalPages(n - per, per)
  }

  /** `TotalPages` is the fewest pages of `per` items that hold `n` items. */
  lemma {:induction false} TotalPagesIsCeiling(n: nat, per: nat)
    requires per > 0
    ensures var r := TotalPages(n, per);
      r * per >= n && (r > 0 ==> (r - 1) * per < n) && (r == 0 <==> n == 0)
    decreases n
  {
    if n > per {
      TotalPagesIsCeiling(n - per, per);
    }
  }

  /** `filteredTypes.slice(startIndex, endIndex)` for page `page`: never more
      than a page's worth of items. */
  function PageItems<T>(list: seq<T>, page: int, per: nat): (r: seq<T>)
    requires per > 0
    ensures |r| <= per
  {
    var start := (page - 1) * per;
    JsSlice(list, start, start + per)
  }

  /** A page in range is the non-empty window of the list that starts
      `(page - 1) * per` items in; a page past the last is empty. */
  lemma PageIsWindow<T>(list: seq<T>, page: int, per: nat)
    requires per > 0
    ensures 1 <= page <= TotalPages(|list|, per) ==>
      (page - 1) * per < |list|
      && PageItems(list, page, per) == list[(page - 1) * per .. Min(page * per, |list|)]
      && PageItems(list, page, per) != []
    ensures page > TotalPages(|list|, per) ==> PageItems(list, page, per) == []
  {
    PageStart(|list|, page, per);
  }

  /** Pages `1 .. k` one after another. */
  function PagesUpTo<T>(list: seq<T>, per: nat, k: nat): seq<T>
    requires per > 0
  {
    if k == 0 then [] else PagesUpTo(list, per, k - 1) + PageItems(list, k, per)
  }

  lemma {:induction false} PagesUpToPrefix<T>(list: seq<T>, per: nat, k: nat)
    requires per > 0 && k <= TotalPages(|list|, per)
    ensures PagesUpTo(list, per, k) == list[..Min(k * per, |list|)]
  {
    if k > 0 {
      PagesUpToPrefix(list, per, k - 1);
      PageIsWindow(list, k, per);
      var start, end := (k - 1) * per, Min(k * per, |list|);
      JoinSlices(list, start, end);
    }
  }

  lemma JoinSlices<T>(list: seq<T>, a: nat, b: nat)
    requires a <= b <= |list|
    ensures list[..a] + list[a..b] == list[..b]
  {
  }

  /** The pages, read in order, are the filtered list: every item is on exactly
      one page and nothing else is. */
  lemma PagesCoverList<T>(list: seq<T>, per: nat)
    requires per > 0
    ensures PagesUpTo(list, per, TotalPages(|list|, per)) == list
  {
    TotalPagesIsCeiling(|list|, per);
    PagesUpToPrefix(list, per, TotalPages(|list|, per));
  }

  /** The previous-page button: one page back, never below the first. */
  function PrevPage(page: int): (r: int)
    ensures r >= 1
    ensures page > 1 ==> r == page - 1
    ensures page <= 1 ==> r == 1
  {
    Max(1, page - 1)
  }

  /** The next-page button: one page on, never past the last. */
  function NextPage(page: int, totalPages: nat): (r: int)
    ensures r <= totalPages
    ensures page < totalPages ==> r == page + 1
    ensures page >= totalPages ==> r == totalPages
  {
    Min(totalPages, page + 1)
  }

  /** The "go to" box: the typed page clamped into `[1, totalPages]`. */
  function GoToPage(v: int, totalPages: nat): (r: int)
    ensures totalPages >= 1 ==> 1 <= r <= totalPages
    ensures 1 <= v <= totalPages ==> r == v
    ensures v < 1 ==> r == 1
    ensures v > totalPages ==> r == Max(1, totalPages)
  {
    Max(1, Min(totalPages, v))
  }

  /** The controls are shown only when there is more than one page; from any page
      in range every control leads to a page in range. */
  lemma NavigationStaysInRange(page: int, totalPages: nat, v: int)
    requires totalPages > 1 && 1 <= page <= totalPages
    ensures 1 <= PrevPage(page) <= totalPages
    ensures 1 <= NextPage(page, totalPages) <= totalPages
    ensures 1 <= GoToPage(v, totalPages) <= totalPages
  {
  }

  /** The trimmed name a save sends, or none for a blank name. */
  function NameToSend(name: string): (r: Option<string>)
    ensures r.None? <==> IsBlank(name)
    ensures r.Some? ==> r.value != "" && !IsWhitespace(r.value[0]) && !IsWhitespace(r.value[|r.value| - 1])
  {
    TrimEmptyIffBlank(name);
    TrimmedEnds(name);
    if Trim(name) == "" then None else Some(Trim(name))
  }

  /** The name sent is the typed name without its surrounding whitespace. */
  lemma NameSentIsCore(name: string)
    requires !IsBlank(name)
    ensures name == Leading(name) + NameToSend(name).value + Trailing(name)
    ensures IsBlank(Leading(name)) && IsBlank(Trailing(name))
  {
    TrimSplits(name);
  }

  /** Update when a type is being edited, add otherwise. */
  function SaveCall(editingId: Option<string>, name: string): (c: TypeCall)
    ensures c.name == name
    ensures c.UpdateType? <==> IsTruthy(editingId)
    ensures c.UpdateType? ==> c.id == editingId.value
  {
    if IsTruthy(editingId) then UpdateType(editingId.value, name) else AddType(name)
  }

  const ItemsPerPageChoices: set<nat> := {10, 25, 50, 100}

  class TypePage {
    /** The types the store currently holds. */
    var types: seq<InstitutionType>
    var showDeleted: bool
    var showForm: bool
    var isSubmitting: bool
    var editingId: Option<string>
    var formName: string
    var currentPage: int
    var itemsPerPage: nat
    var searchTerm: string
    var calls: seq<TypeCall>
    const dialog: ConfirmDialog

    predicate Valid()
      reads this
    {
      itemsPerPage > 0 && itemsPerPage in ItemsPerPageChoices
    }

    constructor (types: seq<InstitutionType>)
      ensures Valid() && this.types == types && !showDeleted
      ensures !showForm && !isSubmitting && editingId.None? && formName == ""
      ensures currentPage == 1 && itemsPerPage == 50 && searchTerm == "" && calls == []
      ensures fresh(dialog) && dialog.modal == ClosedModal && dialog.calls == []
    {
      this.types := types;
      showDeleted := false;
      showForm := false;
      isSubmitting := false;
      editingId := None;
      formName := "";
      currentPage := 1;
      itemsPerPage := 50;
      searchTerm := "";
      calls := [];
      dialog := new ConfirmDialog();
    }

    function Filtered(): seq<InstitutionType>
      reads this
    {
      FilteredTypes(types, searchTerm, showDeleted)
    }

    function Total(): nat
      requires Valid()
      reads this
    {
      TotalPages(|Filtered()|, itemsPerPage)
    }

    /** The rows of the table. */
    function Shown(): (r: seq<InstitutionType>)
      requires Valid()
      reads this
      ensures |r| <= itemsPerPage
      ensures forall t :: t in r ==> t in Filtered()
    {
      PageItems(Filtered(), currentPage, itemsPerPage)
    }

    /** The store hands back a new list (after a save, delete or restore); the
        current page is kept even if it is now past the last one. */
    method Reload(newTypes: seq<InstitutionType>)
      requires Valid()
      modifies this`types
      ensures Valid()
      ensures types == newTypes
    {
      types := newTypes;
    }

    /** Typing in the search box; the page goes back to the first when the term changes. */
    method SetSearchTerm(s: string)
      requires Valid()
      modifies this`searchTerm, this`currentPage
      ensures Valid()
      ensures searchTerm == s
      ensures currentPage == (if s != old(searchTerm) then 1 else old(currentPage))
    {
      if s != searchTerm {
        currentPage := 1;
      }
      searchTerm := s;
    }

    /** The show-deleted box; the page goes back to the first when it changes. */
    method SetShowDeleted(b: bool)
      requires Valid()
      modifies this`showDeleted, this`currentPage
      ensures Valid()
      ensures showDeleted == b
      ensures currentPage == (if b != old(showDeleted) then 1 else old(currentPage))
    {
      if b != showDeleted {
        currentPage := 1;
      }
      showDeleted := b;
    }

    method SetItemsPerPage(per: nat)
      requires per in ItemsPerPageChoices
      modifies this`itemsPerPage, this`currentPage
      ensures Valid() && itemsPerPage == per && currentPage == 1
    {
      itemsPerPage := per;
      currentPage := 1;
    }

    method GoPrev()
      requires Valid()
      modifies this`currentPage
      ensures Valid()
      ensures currentPage == PrevPage(old(currentPage))
    {
      currentPage := Max(1, currentPage - 1);
    }

    method GoNext()
      requires Valid()
      modifies this`currentPage
      ensures Valid()
      ensures currentPage == NextPage(old(currentPage), Total())
    {
      currentPage := Min(Total(), currentPage + 1);
    }

    method GoTo(v: int)
      requires Valid()
      modifies this`currentPage
      ensures Valid()
      ensures currentPage == GoToPage(v, Total())
      ensures Total() >= 1 ==> 1 <= currentPage <= Total()
    {
      currentPage := Max(1, Min(Total(), v));
    }

    method HandleEdit(t: InstitutionType)
      requires Valid()
      modifies this`editingId, this`formName, this`showForm
      ensures Valid()
      ensures editingId == Some(t.id) && formName == t.name && showForm
    {
      editingId := Some(t.id);
      formName := t.name;
      showForm := true;
    }

    method HandleCancel()
      requires Valid()
      modifies this`editingId, this`formName, this`showForm
      ensures Valid()
      ensures editingId.None? && formName == "" && !showForm
    {
      showForm := false;
      editingId := None;
      formName := "";
    }

    /** The header button: opens the form as it was left, or closes and clears it. */
    method ToggleForm()
      requires Valid()
      modifies this`editingId, this`formName, this`showForm
      ensures Valid()
      ensures old(showForm) ==> editingId.None? && formName == "" && !showForm
      ensures !old(showForm) ==> showForm && editingId == old(editingId) && formName == old(formName)
    {
      if showForm {
        HandleCancel();
      } else {
        showForm := true;
      }
    }

    /** `handleSave`: a blank name makes no call; otherwise the trimmed name is
        sent to update (when editing) or add, and the form is cleared only when
        the call resolves. A rejection leaves the handler. */
    method HandleSave(reply: Attempt<()>) returns (h: HandlerResult)
      requires Valid()
      modifies this`isSubmitting, this`showForm, this`formName, this`editingId, this`calls
      ensures Valid()
      ensures NameToSend(old(formName)).None? ==>
        h == Skipped && calls == old(calls) && showForm == old(showForm) && formName == old(formName)
        && editingId == old(editingId) && isSubmitting == old(isSubmitting)
      ensures NameToSend(old(formName)).Some? ==>
        calls == old(calls) + [SaveCall(old(editingId), NameToSend(old(formName)).value)]
        && !isSubmitting
      ensures NameToSend(old(formName)).Some? && reply.Returns? ==>
        h == Done && !showForm && formName == "" && editingId.None?
      ensures NameToSend(old(formName)).Some? && reply.Throws? ==>
        h == Rethrown(reply.message) && showForm == old(showForm)
        && formName == old(formName) && editingId == old(editingId)
    {
      var name := NameToSend(formName);
      if name.None? {
        return Skipped;
      }
      isSubmitting := true;
      calls := calls + [SaveCall(editingId, name.value)];
      if reply.Throws? {
        h := Rethrown(reply.message);
      } else {
        showForm := false;
        formName := "";
        editingId := None;
        h := Done;
      }
      isSubmitting := false;
    }

    /** The row buttons that ask to delete or restore a type, named by its name. */
    method OpenModal(t: InstitutionType, action: Action)
      requires Valid()
      modifies dialog
      ensures Valid()
      ensures dialog.modal == Modal(true, Some(t.id), action, t.name)
      ensures dialog.calls == old(dialog.calls)
    {
      dialog.Open(t.id, t.name, action);
    }

    /** The dialog's cancel: it returns to its initial state, and no call is made. */
    method DismissModal()
      requires Valid()
      modifies dialog
      ensures Valid()
      ensures dialog.modal == ClosedModal
      ensures dialog.calls == old(dialog.calls)
    {
      dialog.Dismiss(ResetToDefault);
    }

    /** The confirmation of a delete or restore: on success the dialog returns
        to its initial state; a rejection is caught and the dialog stays. */
    method ExecuteAction(reply: Attempt<()>) returns (h: HandlerResult)
      requires Valid()
      modifies dialog
      ensures Valid()
      ensures !IsTruthy(old(dialog.modal.id)) ==>
        h == Skipped && dialog.calls == old(dialog.calls) && dialog.modal == old(dialog.modal)
        && dialog.isActionLoading == old(dialog.isActionLoading)
      ensures IsTruthy(old(dialog.modal.id)) ==>
        dialog.calls == old(dialog.calls) + [CallFor(old(dialog.modal.action), old(dialog.modal.id.value))]
        && !dialog.isActionLoading
      ensures IsTruthy(old(dialog.modal.id)) && reply.Returns? ==> h == Done && dialog.modal == ClosedModal
      ensures IsTruthy(old(dialog.modal.id)) && reply.Throws? ==>
        h == Caught(reply.message) && dialog.modal == old(dialog.modal)
    {
      h := dialog.ExecuteAction(reply, Policy(ResetToDefault, true));
    }
  }
}

/** The curriculum (BNCC) administration screen: the searchable item table, the
    manual create/edit form, and the PDF upload that feeds the review dialog and
    saves the chosen candidates one by one. */
module BnccManager {
  import opened Values
  import opened Seqs
  import opened Text
  import opened Lifecycle
  import opened BnccExtractionSummary

  /** A stored curriculum item; its text fields may be missing. */
  datatype BnccItem = BnccItem(
    id: string,
    codigoAlfanumerico: Option<string>,
    componenteCurricular: Option<string>,
    descricaoHabilidade: Option<string>,
    anoSerie: Option<string>,
    unidadeTematica: Option<string>,
    deleted: bool)

  /** The form's `formData`: a partial item, as handed to `saveItem`. */
  datatype BnccForm = BnccForm(
    codigoAlfanumerico: Option<string>,
    componenteCurricular: Option<string>,
    descricaoHabilidade: Option<string>,
    anoSerie: Option<string>,
    unidadeTematica: Option<string>)

  const EmptyForm := BnccForm(Some(""), Some(""), Some(""), Some(""), Some(""))

  /** A record built by the review dialog, as a partial item. */
  function FormOf(d: BnccDraft): BnccForm
  {
    BnccForm(Some(d.codigoAlfanumerico), Some(d.componenteCurricular), Some(d.descricaoHabilidade),
             Some(d.anoSerie), Some(d.unidadeTematica))
  }

  /** The file the browser hands to the upload input. */
  datatype UploadedFile = UploadedFile(name: string, mimeType: string)

  const PdfMimeType := "application/pdf"

  /** The calls the screen makes into the PDF parser, the extractor and the item store. */
  datatype ExternalCall =
    | ParseFile(fileName: string)
    | ExtractBnccs(text: string)
    | SaveItem(editingId: Option<string>, form: BnccForm)

  // ------------------------------------------------------------ item table

  /** The search box matches the code or the description, ignoring case. */
  predicate MatchesSearch(item: BnccItem, searchTerm: string)
  {
    var term := ToLower(searchTerm);
    Contains(ToLower(OrEmpty(item.codigoAlfanumerico)), term)
    || Contains(ToLower(OrEmpty(item.descricaoHabilidade)), term)
  }

  /** The component select: "All", or exactly one component. */
  predicate MatchesComponent(item: BnccItem, componentFilter: string)
  {
    componentFilter == "All" || item.componenteCurricular == Some(componentFilter)
  }

  /** `filteredItems`: the rows meeting both the search and the component filter,
      in store order. */
  function FilteredItems(items: seq<BnccItem>, searchTerm: string, componentFilter: string): (r: seq<BnccItem>)
    ensures IsSubsequence(r, items)
    ensures forall i :: i in r <==>
      i in items && MatchesSearch(i, searchTerm) && MatchesComponent(i, componentFilter)
    ensures forall i :: multiset(r)[i] ==
                        if MatchesSearch(i, searchTerm) && MatchesComponent(i, componentFilter) then multiset(items)[i] else 0
  {
    Filter(items, i => MatchesSearch(i, searchTerm) && MatchesComponent(i, componentFilter))
  }

  /** With an empty search box and "All" selected every row is listed. */
  lemma NoFilterListsAll(items: seq<BnccItem>)
    ensures FilteredItems(items, "", "All") == items
  {
    FilterKeepsAll(items, i => MatchesSearch(i, "") && MatchesComponent(i, "All"));
  }

  /** `toLowerCase` leaves a lower-cased string as it is. */
  lemma ToLowerIdempotent(s: string)
    ensures ToLower(ToLower(s)) == ToLower(s)
  {
  }

  /** The search is case-insensitive: typing the term in lower case lists the same rows. */
  lemma SearchIgnoresCase(items: seq<BnccItem>, searchTerm: string, componentFilter: string)
    ensures FilteredItems(items, ToLower(searchTerm), componentFilter)
         == FilteredItems(items, searchTerm, componentFilter)
  {
    ToLowerIdempotent(searchTerm);
    FilterSamePredicate(items,
      i => MatchesSearch(i, ToLower(searchTerm)) && MatchesComponent(i, componentFilter),
      i => MatchesSearch(i, searchTerm) && MatchesComponent(i, componentFilter));
  }

  /** `items.map(i => i.componente_curricular).filter(Boolean)`. */
  function TruthyComponents(items: seq<BnccItem>): (r: seq<string>)
    ensures forall c :: c in r <==>
      c != "" && exists i :: i in items && i.componenteCurricular == Some(c)
  {
    if items == [] then []
    else
      assert forall i :: i in items <==> i == items[0] || i in items[1..];
      (if IsTruthy(items[0].componenteCurricular) then [items[0].componenteCurricular.value] else [])
      + TruthyComponents(items[1..])
  }

  /** `uniqueComponents`, the options of the component select: every non-empty
      component of some row, once each, in sort order. */
  function UniqueComponents(items: seq<BnccItem>): (r: seq<string>)
    ensures StrictlySorted(r)
    ensures forall c :: c in r <==>
      c != "" && exists i :: i in items && i.componenteCurricular == Some(c)
  {
    SortDistinct(TruthyComponents(items))
  }

  /** Choosing any offered component, with an empty search, lists at least one row. */
  lemma OfferedComponentHasRows(items: seq<BnccItem>, c: string)
    requires c in UniqueComponents(items)
    ensures FilteredItems(items, "", c) != []
  {
    var i :| i in items && i.componenteCurricular == Some(c);
    assert MatchesSearch(i, "") by {
      assert ToLower("") == "";
    }
    assert i in FilteredItems(items, "", c);
  }

  // ------------------------------------------------------------ extraction

  const NoTextMessage := "Não foi possível extrair texto do PDF. O arquivo pode estar corrompido ou protegido."
  const ErrorPrefix := "Erro ao processar o documento: "
  const UnknownError := "Erro desconhecido"

  /** The result shown when the parser finds no text. */
  const NoTextResult := ExtractionResult([], false, Some(NoTextMessage))

  /** The result shown when the parser or the extractor throws: `error.message`,
      or a fixed text when it has none. */
  function FailureResult(errorMessage: string): (r: ExtractionResult)
    ensures r.bnccs == [] && !r.hasBnccContent
    ensures r.message.Some?
    ensures errorMessage != "" ==> r.message.value == ErrorPrefix + errorMessage
    ensures errorMessage == "" ==> r.message.value == ErrorPrefix + UnknownError
  {
    ExtractionResult([], false, Some(ErrorPrefix + (if errorMessage != "" then errorMessage else UnknownError)))
  }

  /** The extractor is called exactly when the parser returns text that is not blank. */
  predicate ExtractorCalled(parsed: Attempt<Option<string>>)
  {
    parsed.Returns? && parsed.value.Some? && Trim(parsed.value.value) != ""
  }

  /** The result `handleFileUpload` leaves behind, given what `parseFile` and
      `extractBNCCsFromPDF` give back. */
  function ExtractionOutcome(parsed: Attempt<Option<string>>, extracted: Attempt<ExtractionResult>): (r: ExtractionResult)
    ensures r.hasBnccContent || r.bnccs != [] ==> ExtractorCalled(parsed) && extracted == Returns(r)
    ensures ExtractorCalled(parsed) && extracted.Returns? ==> r == extracted.value
    ensures parsed.Throws? ==> r == FailureResult(parsed.message)
    ensures ExtractorCalled(parsed) && extracted.Throws? ==> r == FailureResult(extracted.message)
    ensures parsed.Returns? && !ExtractorCalled(parsed) ==> r == NoTextResult
  {
    if parsed.Throws? then FailureResult(parsed.message)
    else if !ExtractorCalled(parsed) then NoTextResult
    else if extracted.Throws? then FailureResult(extracted.message)
    else extracted.value
  }

  /** Every outcome that did not come from the extractor opens the dialog on its
      own explanation, never on the review list. */
  lemma FailuresAreExplained(parsed: Attempt<Option<string>>, extracted: Attempt<ExtractionResult>)
    requires !(ExtractorCalled(parsed) && extracted.Returns?)
    ensures var r := ExtractionOutcome(parsed, extracted);
      r.message.Some? && ChooseScreen(false, Some(r)) == NotBncc(r.message.value)
  {
    var r := ExtractionOutcome(parsed, extracted);
    assert |NoTextMessage| > 0 && |ErrorPrefix| > 0;
  }

  /** A blank text is the same as no text: nothing is sent to the extractor. */
  lemma BlankTextNotExtracted(text: string)
    ensures ExtractorCalled(Returns(Some(text))) <==> !IsBlank(text)
  {
    TrimEmptyIffBlank(text);
  }

  // ------------------------------------------------------------ batch save

  /** The position of the first rejected call, or the number of calls when none is rejected. */
  function FirstThrow<T>(replies: seq<Attempt<T>>): (k: nat)
    ensures k <= |replies|
    ensures forall j :: 0 <= j < k ==> replies[j].Returns?
    ensures k < |replies| ==> replies[k].Throws?
  {
    if replies == [] || replies[0].Throws? then 0
    else 1 + FirstThrow(replies[1..])
  }

  /** The first rejection is the one every earlier call resolved before. */
  lemma {:induction false} FirstThrowAt<T>(replies: seq<Attempt<T>>, i: nat)
    requires i <= |replies|
    requires forall j :: 0 <= j < i ==> replies[j].Returns?
    requires i < |replies| ==> replies[i].Throws?
    ensures FirstThrow(replies) == i
  {
    if i > 0 {
      FirstThrowAt(replies[1..], i - 1);
    }
  }

  /** The store calls of a batch that gets through `records`. */
  function SaveCalls(records: seq<BnccDraft>): seq<ExternalCall>
  {
    if records == [] then []
    else SaveCalls(records[..|records| - 1]) + [SaveItem(None, FormOf(records[|records| - 1]))]
  }

  lemma SaveCallsExtend(records: seq<BnccDraft>, i: nat)
    requires i < |records|
    ensures SaveCalls(records[..i + 1]) == SaveCalls(records[..i]) + [SaveItem(None, FormOf(records[i]))]
  {
    assert records[..i + 1][..i] == records[..i];
  }

  /** A batch that gets through makes one save call per record, in order. */
  lemma {:induction false} SaveCallsPerRecord(records: seq<BnccDraft>)
    ensures |SaveCalls(records)| == |records|
    ensures forall k :: 0 <= k < |records| ==> SaveCalls(records)[k] == SaveItem(None, FormOf(records[k]))
  {
    if records != [] {
      SaveCallsPerRecord(records[..|records| - 1]);
    }
  }

  /** Confirming the review and getting every call through saves exactly the
      selected candidates as drafts, in extraction order. */
  lemma SavingTheReviewSavesTheSelection(bnccs: seq<ExtractedBncc>, selected: set<int>)
    ensures var idx := SelectedIndices(|bnccs|, selected);
      var calls := SaveCalls(ItemsToSave(bnccs, selected));
      |calls| == |idx|
      && forall k :: 0 <= k < |idx| ==>
           idx[k] < |bnccs| && calls[k] == SaveItem(None, FormOf(Draft(bnccs[idx[k]])))
  {
    ItemsToSaveFollowsSelection(bnccs, selected);
    SaveCallsPerRecord(ItemsToSave(bnccs, selected));
  }

  /** The form may be submitted once the code and the component are filled in. */
  predicate FormComplete(f: BnccForm)
  {
    IsTruthy(f.codigoAlfanumerico) && IsTruthy(f.componenteCurricular)
  }

  // ------------------------------------------------------------ the screen

  class BnccPage {
    var editingId: Option<string>
    var formData: BnccForm
    var isFormOpen: bool
    var isSaving: bool
    var isExtracting: bool
    var extractionResult: Option<ExtractionResult>
    var extractionFileName: string
    var isSavingExtracted: bool
    /** The review dialog while it is mounted. */
    var summary: Summary?
    var log: seq<ExternalCall>
    const dialog: ConfirmDialog

    constructor ()
      ensures editingId.None? && formData == EmptyForm && !isFormOpen && !isSaving
      ensures !isExtracting && extractionResult.None? && extractionFileName == "" && !isSavingExtracted
      ensures summary == null && log == [] && Mounted()
      ensures fresh(dialog) && dialog.modal == ClosedModal && dialog.calls == []
    {
      editingId := None;
      formData := EmptyForm;
      isFormOpen := false;
      isSaving := false;
      isExtracting := false;
      extractionResult := None;
      extractionFileName := "";
      isSavingExtracted := false;
      summary := null;
      log := [];
      dialog := new ConfirmDialog();
    }

    /** The review dialog is rendered while there is a result or an extraction runs. */
    predicate SummaryShown()
      reads this
    {
      extractionResult.Some? || isExtracting
    }

    /** The review dialog is mounted exactly while it is rendered: every method
        of the screen keeps this. */
    predicate Mounted()
      reads this
    {
      summary != null <==> SummaryShown()
    }

    /** A render: the dialog mounts (running its initialiser on the current
        result), stays mounted with its state, or unmounts. */
    method Render()
      modifies this`summary
      ensures Mounted()
      ensures SummaryShown() && old(summary) != null ==> summary == old(summary)
      ensures SummaryShown() && old(summary) == null ==>
        fresh(summary) && summary.selected == InitialSelection(extractionResult)
    {
      if !SummaryShown() {
        summary := null;
      } else if summary == null {
        summary := new Summary(extractionResult);
      }
    }

    method HandleCreate()
      requires Mounted()
      modifies this`editingId, this`formData, this`isFormOpen
      ensures Mounted()
      ensures editingId.None? && formData == EmptyForm && isFormOpen
    {
      editingId := None;
      formData := EmptyForm;
      isFormOpen := true;
    }

    method HandleEdit(item: BnccItem)
      requires Mounted()
      modifies this`editingId, this`formData, this`isFormOpen
      ensures Mounted()
      ensures editingId == Some(item.id) && isFormOpen
      ensures formData == BnccForm(item.codigoAlfanumerico, item.componenteCurricular,
        item.descricaoHabilidade, item.anoSerie, item.unidadeTematica)
    {
      editingId := Some(item.id);
      formData := BnccForm(item.codigoAlfanumerico, item.componenteCurricular,
        item.descricaoHabilidade, item.anoSerie, item.unidadeTematica);
      isFormOpen := true;
    }

    /** `handleSave`: an incomplete form makes no call; otherwise one create or
        update call, the form closes only when it reports success, and a
        rejection leaves the handler. */
    method HandleSave(reply: Attempt<bool>) returns (h: HandlerResult)
      requires Mounted()
      modifies this`isSaving, this`isFormOpen, this`log
      ensures Mounted()
      ensures !FormComplete(formData) ==>
        h == Skipped && log == old(log) && isFormOpen == old(isFormOpen) && isSaving == old(isSaving)
      ensures FormComplete(formData) ==>
        log == old(log) + [SaveItem(editingId, formData)] && !isSaving
        && (isFormOpen <==> old(isFormOpen) && reply != Returns(true))
        && h == (if reply.Throws? then Rethrown(reply.message) else Done)
    {
      if !FormComplete(formData) {
        return Skipped;
      }
      isSaving := true;
      log := log + [SaveItem(editingId, formData)];
      if reply.Throws? {
        h := Rethrown(reply.message);
      } else {
        if reply.value {
          isFormOpen := false;
        }
        h := Done;
      }
      isSaving := false;
    }

    /** The row buttons that ask to delete or restore an item, named by its code
        (an item without a code gives an empty name). */
    method OpenModal(item: BnccItem, action: Action)
      requires Mounted()
      modifies dialog
      ensures Mounted()
      ensures dialog.modal == Modal(true, Some(item.id), action, OrEmpty(item.codigoAlfanumerico))
      ensures dialog.calls == old(dialog.calls)
    {
      dialog.Open(item.id, OrEmpty(item.codigoAlfanumerico), action);
    }

    /** The dialog's cancel: it closes keeping its fields, and no call is made. */
    method DismissModal()
      requires Mounted()
      modifies dialog
      ensures Mounted()
      ensures dialog.modal == old(dialog.modal).(isOpen := false)
      ensures dialog.calls == old(dialog.calls)
    {
      dialog.Dismiss(KeepFields);
    }

    /** The confirmation of a delete or restore: the dialog keeps its fields when
        it closes and a rejection leaves the handler. */
    method ExecuteAction(reply: Attempt<()>) returns (h: HandlerResult)
      requires Mounted()
      modifies dialog
      ensures Mounted()
      ensures !IsTruthy(old(dialog.modal.id)) ==>
        h == Skipped && dialog.calls == old(dialog.calls) && dialog.modal == old(dialog.modal)
        && dialog.isActionLoading == old(dialog.isActionLoading)
      ensures IsTruthy(old(dialog.modal.id)) ==>
        dialog.calls == old(dialog.calls) + [CallFor(old(dialog.modal.action), old(dialog.modal.id.value))]
        && !dialog.isActionLoading
      ensures IsTruthy(old(dialog.modal.id)) && reply.Returns? ==>
        h == Done && dialog.modal == old(dialog.modal).(isOpen := false)
      ensures IsTruthy(old(dialog.modal.id)) && reply.Throws? ==>
        h == Rethrown(reply.message) && dialog.modal == old(dialog.modal)
    {
      h := dialog.ExecuteAction(reply, Policy(KeepFields, false));
    }

    /** `handleFileUpload`: only a PDF is taken; its text goes to the extractor
        unless it is blank; whatever happens the outcome is left as the result
        and the extraction flag is cleared. The dialog mounts while the parser
        runs, so a dialog that was not already open starts with nothing selected. */
    method HandleFileUpload(file: Option<UploadedFile>, parsed: Attempt<Option<string>>,
                            extracted: Attempt<ExtractionResult>) returns (accepted: bool)
      requires Mounted()
      modifies this`isExtracting, this`extractionResult, this`extractionFileName, this`summary, this`log
      ensures Mounted()
      ensures accepted <==> file.Some? && file.value.mimeType == PdfMimeType
      ensures !accepted ==>
        isExtracting == old(isExtracting) && extractionResult == old(extractionResult)
        && extractionFileName == old(extractionFileName) && summary == old(summary) && log == old(log)
      ensures accepted ==>
        !isExtracting && extractionFileName == file.value.name
        && extractionResult == Some(ExtractionOutcome(parsed, extracted))
        && log == old(log) + [ParseFile(file.value.name)]
                 + (if ExtractorCalled(parsed) then [ExtractBnccs(parsed.value.value)] else [])
      ensures accepted && old(summary) == null ==> fresh(summary) && summary.selected == {}
      ensures accepted && old(summary) != null ==> summary == old(summary)
    {
      if file.None? || file.value.mimeType != PdfMimeType {
        return false;
      }
      isExtracting := true;
      extractionResult := None;
      extractionFileName := file.value.name;
      // the state updates above are rendered while `parseFile` is awaited
      Render();
      log := log + [ParseFile(file.value.name)];
      if parsed.Throws? {
        extractionResult := Some(FailureResult(parsed.message));
      } else if parsed.value.None? || Trim(parsed.value.value) == "" {
        extractionResult := Some(NoTextResult);
      } else {
        log := log + [ExtractBnccs(parsed.value.value)];
        if extracted.Throws? {
          extractionResult := Some(FailureResult(extracted.message));
        } else {
          extractionResult := Some(extracted.value);
        }
      }
      isExtracting := false;
      accepted := true;
    }

    /** The review dialog's close button: the result and the file name are
        cleared, and the dialog unmounts unless an extraction is running. */
    method CloseSummary()
      modifies this`extractionResult, this`extractionFileName, this`summary
      ensures extractionResult.None? && extractionFileName == ""
      ensures Mounted()
      ensures summary == null <==> !isExtracting
    {
      extractionResult := None;
      extractionFileName := "";
      Render();
    }

    /** The `for` loop of `handleSaveExtracted`: one `saveItem` call per record,
        in order, stopping after the first rejected call. Returns where it
        stopped: the position of that call, or the number of records. */
    method SaveEach(bnccs: seq<BnccDraft>, replies: seq<Attempt<bool>>) returns (k: nat)
      requires |replies| == |bnccs|
      modifies this`log
      ensures k == FirstThrow(replies)
      ensures log == old(log) + SaveCalls(bnccs[..if k < |replies| then k + 1 else k])
    {
      var i := 0;
      while i < |bnccs|
        invariant 0 <= i <= |bnccs|
        invariant forall j :: 0 <= j < i ==> replies[j].Returns?
        invariant log == old(log) + SaveCalls(bnccs[..i])
      {
        SaveCallsExtend(bnccs, i);
        log := log + [SaveItem(None, FormOf(bnccs[i]))];
        if replies[i].Throws? {
          FirstThrowAt(replies, i);
          return i;
        }
        i := i + 1;
      }
      FirstThrowAt(replies, i);
      k := i;
    }

    /** `handleSaveExtracted`: the records are saved one after another, in order,
        until a call is rejected; a call that resolves to `false` does not stop
        the batch. Only a batch without a rejection clears the result, which
        unmounts the dialog. */
    method HandleSaveExtracted(bnccs: seq<BnccDraft>, replies: seq<Attempt<bool>>) returns (h: HandlerResult)
      requires |replies| == |bnccs| && Mounted()
      modifies this`isSavingExtracted, this`extractionResult, this`extractionFileName, this`summary, this`log
      ensures !isSavingExtracted && Mounted()
      ensures var k := FirstThrow(replies);
        log == old(log) + SaveCalls(bnccs[..if k < |replies| then k + 1 else k])
      ensures FirstThrow(replies) == |replies| ==>
        h == Done && extractionResult.None? && extractionFileName == ""
        && (summary == null <==> !isExtracting)
      ensures FirstThrow(replies) < |replies| ==>
        h == Caught(replies[FirstThrow(replies)].message)
        && extractionResult == old(extractionResult) && extractionFileName == old(extractionFileName)
        && summary == old(summary)
    {
      isSavingExtracted := true;
      var k := SaveEach(bnccs, replies);
      if k < |replies| {
        h := Caught(replies[k].message);
      } else {
        extractionResult := None;
        extractionFileName := "";
        Render();
        h := Done;
      }
      isSavingExtracted := false;
    }
  }

  /** After a PDF yields candidates, the review list opens with no candidate
      selected: the "select all" box is unchecked and saving is disabled until
      the user picks something. The upload control lies under the dialog's
      full-screen overlay, so an upload starts with the dialog closed. */
  method ReviewStartsWithNothingSelected(page: BnccPage, file: UploadedFile, text: string, result: ExtractionResult)
    returns (screen: Screen, selected: set<int>, allChecked: bool, canSave: bool)
    requires page.Mounted() && !page.SummaryShown()
    requires file.mimeType == PdfMimeType && !IsBlank(text)
    requires result.hasBnccContent && result.bnccs != []
    modifies page
    ensures screen == Review && selected == {} && !allChecked && !canSave
  {
    BlankTextNotExtracted(text);
    var accepted := page.HandleFileUpload(Some(file), Returns(Some(text)), Returns(result));
    page.Render();
    screen := ChooseScreen(page.isExtracting, page.extractionResult);
    selected := page.summary.selected;
    allChecked := SelectAllChecked(selected, |result.bnccs|);
    canSave := SaveEnabled(selected, page.isSavingExtracted);
  }

  /** Closing the review and uploading again gives a new dialog: a choice made
      in the first review does not carry over to the second. */
  method ReuploadAfterCloseStartsEmpty(file: UploadedFile, text: string, result: ExtractionResult)
    returns (first: set<int>, second: set<int>)
    requires file.mimeType == PdfMimeType && !IsBlank(text)
    requires result.hasBnccContent && result.bnccs != []
    ensures first == {0} && second == {}
  {
    var page := new BnccPage();
    BlankTextNotExtracted(text);
    var accepted := page.HandleFileUpload(Some(file), Returns(Some(text)), Returns(result));
    page.summary.ToggleItem(0);
    first := page.summary.selected;
    page.CloseSummary();
    accepted := page.HandleFileUpload(Some(file), Returns(Some(text)), Returns(result));
    second := page.summary.selected;
  }
}

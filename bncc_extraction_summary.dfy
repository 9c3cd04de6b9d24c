/** The review dialog for curriculum items (BNCC skills) extracted from a PDF:
    which view it shows, the set of selected candidate indices, and the list of
    records it hands to the save callback. */
module BnccExtractionSummary {
  import opened Values

  /** One candidate as the structured extractor returns it; only the code is
      always present. */
  datatype ExtractedBncc = ExtractedBncc(
    codigoAlfanumerico: string,
    componenteCurricular: Option<string>,
    descricaoHabilidade: Option<string>,
    anoSerie: Option<string>,
    unidadeTematica: Option<string>)

  /** The extractor's answer: the candidates, whether the document is about the
      BNCC at all, and an optional explanation. */
  datatype ExtractionResult = ExtractionResult(
    bnccs: seq<ExtractedBncc>,
    hasBnccContent: bool,
    message: Option<string>)

  /** The record handed to the save callback for one selected candidate. */
  datatype BnccDraft = BnccDraft(
    codigoAlfanumerico: string,
    componenteCurricular: string,
    descricaoHabilidade: string,
    anoSerie: string,
    unidadeTematica: string)

  const DefaultNotBnccMessage := "O documento analisado não contém informações relacionadas à Base Nacional Comum Curricular (BNCC)."

  // ---------------------------------------------------------------- selection

  /** The indices `0 .. n-1`. */
  function AllIndices(n: nat): (r: set<int>)
    ensures forall i :: i in r <==> 0 <= i < n
  {
    if n == 0 then {} else AllIndices(n - 1) + {n - 1}
  }

  lemma {:induction false} AllIndicesSize(n: nat)
    ensures |AllIndices(n)| == n
  {
    if n > 0 {
      AllIndicesSize(n - 1);
    }
  }

  /** A selection of in-range indices with as many elements as there are
      candidates is the whole range: the "select all" box and `toggleAll` compare
      sizes only, and this is why that is enough. */
  lemma FullSizeMeansAll(selected: set<int>, n: nat)
    requires selected <= AllIndices(n)
    ensures |selected| == n <==> selected == AllIndices(n)
  {
    AllIndicesSize(n);
    var missing := AllIndices(n) - selected;
    assert AllIndices(n) == selected + missing;
    assert selected * missing == {};
    assert |AllIndices(n)| == |selected| + |missing|;
  }

  /** The value `useState` starts the selection with when the dialog mounts:
      every index of the result's candidates, and none when there is no result. */
  function InitialSelection(result: Option<ExtractionResult>): (r: set<int>)
    ensures forall i :: i in r <==> result.Some? && 0 <= i < |result.value.bnccs|
    ensures result.None? ==> r == {}
  {
    if result.None? then {} else AllIndices(|result.value.bnccs|)
  }

  /** `toggleItem`: membership of `index` flips and no other index changes. */
  function Toggled(selected: set<int>, index: int): (r: set<int>)
    ensures index in r <==> index !in selected
    ensures forall j :: j != index ==> (j in r <==> j in selected)
  {
    if index in selected then selected - {index} else selected + {index}
  }

  /** Toggling the same index twice restores the selection. */
  lemma ToggleInvolution(selected: set<int>, index: int)
    ensures Toggled(Toggled(selected, index), index) == selected
  {
  }

  /** Toggling an in-range index keeps the selection within the candidates. */
  lemma ToggleStaysInRange(selected: set<int>, index: int, n: nat)
    requires selected <= AllIndices(n) && 0 <= index < n
    ensures Toggled(selected, index) <= AllIndices(n)
  {
  }

  /** `toggleAll`: clear when the size equals the candidate count, otherwise select all. */
  function ToggledAll(selected: set<int>, n: nat): set<int>
  {
    if |selected| == n then {} else AllIndices(n)
  }

  /** With an in-range selection, `toggleAll` empties a full selection and fills
      any other one; applied to a full selection twice, it comes back full. */
  lemma ToggleAllClearsOrFills(selected: set<int>, n: nat)
    requires selected <= AllIndices(n)
    ensures selected == AllIndices(n) ==> ToggledAll(selected, n) == {}
    ensures selected != AllIndices(n) ==> ToggledAll(selected, n) == AllIndices(n)
    ensures n > 0 ==> ToggledAll(ToggledAll(AllIndices(n), n), n) == AllIndices(n)
  {
    FullSizeMeansAll(selected, n);
    AllIndicesSize(n);
  }

  /** The "select all" checkbox at the head of the list. */
  predicate SelectAllChecked(selected: set<int>, n: nat)
  {
    |selected| == n
  }

  /** The save button is disabled for an empty selection or while saving. */
  predicate SaveEnabled(selected: set<int>, isSaving: bool)
  {
    !(|selected| == 0 || isSaving)
  }

  /** How the selection actions move the save button when no save is running:
      toggle-all on a full list disables it, toggle-all on any other list of
      candidates enables it, and picking one candidate from an empty selection
      enables it. While a save runs it stays disabled. */
  lemma SaveFollowsSelectionActions(selected: set<int>, n: nat, index: int, isSaving: bool)
    requires selected <= AllIndices(n) && n > 0
    ensures !SaveEnabled(ToggledAll(AllIndices(n), n), isSaving)
    ensures selected != AllIndices(n) ==> (SaveEnabled(ToggledAll(selected, n), isSaving) <==> !isSaving)
    ensures selected == {} && 0 <= index < n ==> (SaveEnabled(Toggled(selected, index), isSaving) <==> !isSaving)
    ensures isSaving ==> !SaveEnabled(selected, isSaving)
  {
    ToggleAllClearsOrFills(selected, n);
    ToggleAllClearsOrFills(AllIndices(n), n);
    AllIndicesSize(n);
  }

  // -------------------------------------------------------------- save list

  /** One candidate with its missing optional fields filled with ''. */
  function Draft(b: ExtractedBncc): BnccDraft
  {
    BnccDraft(b.codigoAlfanumerico, OrEmpty(b.componenteCurricular), OrEmpty(b.descricaoHabilidade),
              OrEmpty(b.anoSerie), OrEmpty(b.unidadeTematica))
  }

  /** The selected indices below `n`, in increasing order. */
  function SelectedIndices(n: nat, selected: set<int>): seq<nat>
  {
    if n == 0 then []
    else SelectedIndices(n - 1, selected) + (if n - 1 in selected then [n - 1] else [])
  }

  /** `SelectedIndices` lists exactly the selected indices below `n`, each once,
      in increasing order. */
  lemma {:induction false} SelectedIndicesSpec(n: nat, selected: set<int>)
    ensures var r := SelectedIndices(n, selected);
      (forall k :: 0 <= k < |r| ==> r[k] < n && r[k] in selected)
      && (forall k, l :: 0 <= k < l < |r| ==> r[k] < r[l])
      && (forall i :: 0 <= i < n && i in selected ==> i in r)
  {
    if n > 0 {
      SelectedIndicesSpec(n - 1, selected);
      var prev := SelectedIndices(n - 1, selected);
      var r := SelectedIndices(n, selected);
      assert r == prev + (if n - 1 in selected then [n - 1] else []);
      forall k | 0 <= k < |r|
        ensures r[k] < n && r[k] in selected
      {
        if k < |prev| {
          assert r[k] == prev[k];
        }
      }
    }
  }

  /** `handleSave`'s list: `bnccs.filter((_, index) => selectedItems.has(index)).map(...)`. */
  function ItemsToSave(bnccs: seq<ExtractedBncc>, selected: set<int>): seq<BnccDraft>
  {
    if bnccs == [] then []
    else
      var last := |bnccs| - 1;
      ItemsToSave(bnccs[..last], selected) + (if last in selected then [Draft(bnccs[last])] else [])
  }

  /** The save list holds one record per selected in-range index, in extraction
      order: its k-th record is the filled-in candidate at the k-th selected
      index. Equal codes at different indices give different records. */
  lemma {:induction false} ItemsToSaveFollowsSelection(bnccs: seq<ExtractedBncc>, selected: set<int>)
    ensures var idx := SelectedIndices(|bnccs|, selected);
      |ItemsToSave(bnccs, selected)| == |idx|
      && forall k :: 0 <= k < |idx| ==>
           idx[k] < |bnccs| && ItemsToSave(bnccs, selected)[k] == Draft(bnccs[idx[k]])
  {
    if bnccs != [] {
      var last := |bnccs| - 1;
      ItemsToSaveFollowsSelection(bnccs[..last], selected);
      SelectedIndicesSpec(last, selected);
      var idx := SelectedIndices(|bnccs|, selected);
      var prev := SelectedIndices(last, selected);
      assert idx == prev + (if last in selected then [last] else []);
      forall k | 0 <= k < |prev|
        ensures bnccs[..last][prev[k]] == bnccs[prev[k]]
      {
      }
    }
  }

  /** The selected indices that name a candidate. */
  function InRange(selected: set<int>, n: nat): (r: set<int>)
    ensures forall i :: i in r <==> i in selected && 0 <= i < n
  {
    if n == 0 then {} else InRange(selected, n - 1) + (if n - 1 in selected then {n - 1} else {})
  }

  /** The number of records saved is the number of selected in-range indices. */
  lemma {:induction false} SelectedIndicesCount(n: nat, selected: set<int>)
    ensures |SelectedIndices(n, selected)| == |InRange(selected, n)|
  {
    if n > 0 {
      SelectedIndicesCount(n - 1, selected);
      if n - 1 in selected {
        assert InRange(selected, n) == InRange(selected, n - 1) + {n - 1};
        assert n - 1 !in InRange(selected, n - 1);
      }
    }
  }

  /** Selecting everything saves every candidate, in extraction order. */
  lemma {:induction false} SaveAllKeepsOrder(bnccs: seq<ExtractedBncc>)
    ensures |ItemsToSave(bnccs, AllIndices(|bnccs|))| == |bnccs|
    ensures forall k :: 0 <= k < |bnccs| ==> ItemsToSave(bnccs, AllIndices(|bnccs|))[k] == Draft(bnccs[k])
  {
    var all := AllIndices(|bnccs|);
    ItemsToSaveFollowsSelection(bnccs, all);
    SelectedIndicesCount(|bnccs|, all);
    assert InRange(all, |bnccs|) == all;
    AllIndicesSize(|bnccs|);
    var idx := SelectedIndices(|bnccs|, all);
    SelectedIndicesSpec(|bnccs|, all);
    forall k | 0 <= k < |bnccs|
      ensures idx[k] == k
    {
      IncreasingFull(idx, |bnccs|, k);
    }
  }

  /** A strictly increasing sequence of `n` indices below `n` is `0, 1, ..., n-1`. */
  lemma {:induction false} IncreasingFull(idx: seq<nat>, n: nat, k: nat)
    requires |idx| == n && k < n
    requires forall j :: 0 <= j < |idx| ==> idx[j] < n
    requires forall j, l :: 0 <= j < l < |idx| ==> idx[j] < idx[l]
    ensures idx[k] == k
  {
    AtLeastPosition(idx, k);
    AtMostPosition(idx, n, k);
  }

  lemma {:induction false} AtLeastPosition(idx: seq<nat>, k: nat)
    requires k < |idx|
    requires forall j, l :: 0 <= j < l < |idx| ==> idx[j] < idx[l]
    ensures idx[k] >= k
  {
    if k > 0 {
      AtLeastPosition(idx, k - 1);
    }
  }

  lemma {:induction false} AtMostPosition(idx: seq<nat>, n: nat, k: nat)
    requires |idx| == n && k < n
    requires forall j :: 0 <= j < |idx| ==> idx[j] < n
    requires forall j, l :: 0 <= j < l < |idx| ==> idx[j] < idx[l]
    ensures idx[k] <= k
    decreases n - k
  {
    if k < n - 1 {
      AtMostPosition(idx, n, k + 1);
    }
  }

  /** Five candidates, indices 1 and 3 deselected: the records of candidates 0, 2
      and 4 are handed over, in that order. */
  lemma DeselectTwoOfFive(bnccs: seq<ExtractedBncc>)
    requires |bnccs| == 5
    ensures ItemsToSave(bnccs, {0, 2, 4}) == [Draft(bnccs[0]), Draft(bnccs[2]), Draft(bnccs[4])]
  {
    var s := {0, 2, 4};
    assert bnccs[..4][..3] == bnccs[..3];
    assert bnccs[..3][..2] == bnccs[..2];
    assert bnccs[..2][..1] == bnccs[..1];
    assert bnccs[..1][..0] == [];
    assert ItemsToSave(bnccs[..1], s) == [Draft(bnccs[0])];
    assert ItemsToSave(bnccs[..2], s) == [Draft(bnccs[0])];
    assert ItemsToSave(bnccs[..3], s) == [Draft(bnccs[0]), Draft(bnccs[2])];
    assert ItemsToSave(bnccs[..4], s) == [Draft(bnccs[0]), Draft(bnccs[2])];
  }

  // ---------------------------------------------------------------- screens

  /** The four things the dialog can show. */
  datatype Screen =
    | Processing              // spinner, no buttons
    | NotBncc(message: string) // explanation and a close button
    | NoneFound               // "no BNCC found" and a close button
    | Review                  // candidate list with selection and save

  function ChooseScreen(isExtracting: bool, result: Option<ExtractionResult>): (v: Screen)
    ensures v == Processing <==> isExtracting || result.None?
    ensures v.NotBncc? <==> !isExtracting && result.Some? && !result.value.hasBnccContent
    ensures v == NoneFound <==>
      !isExtracting && result.Some? && result.value.hasBnccContent && result.value.bnccs == []
    ensures v == Review <==>
      !isExtracting && result.Some? && result.value.hasBnccContent && result.value.bnccs != []
    ensures v.NotBncc? ==> v.message != ""
    ensures v.NotBncc? && IsTruthy(result.value.message) ==> v.message == result.value.message.value
    ensures v.NotBncc? && !IsTruthy(result.value.message) ==> v.message == DefaultNotBnccMessage
  {
    if isExtracting || result.None? then Processing
    else if !result.value.hasBnccContent then
      NotBncc(if IsTruthy(result.value.message) then result.value.message.value else DefaultNotBnccMessage)
    else if |result.value.bnccs| == 0 then NoneFound
    else Review
  }

  /** The dialog's state: the candidate indices currently selected. */
  class Summary {
    var selected: set<int>

    /** Mounting runs the `useState` initialiser once, with the `result` of that
        first render; later renders keep the state. */
    constructor (result: Option<ExtractionResult>)
      ensures selected == InitialSelection(result)
    {
      selected := InitialSelection(result);
    }

    method ToggleItem(index: int)
      modifies this
      ensures selected == Toggled(old(selected), index)
    {
      var next := selected;
      if index in next {
        next := next - {index};
      } else {
        next := next + {index};
      }
      selected := next;
    }

    method ToggleAll(result: ExtractionResult)
      modifies this
      ensures selected == ToggledAll(old(selected), |result.bnccs|)
    {
      if |selected| == |result.bnccs| {
        selected := {};
      } else {
        selected := AllIndices(|result.bnccs|);
      }
    }

    /** `handleSave`: the records passed to `onSave`. */
    function SaveList(result: ExtractionResult): (r: seq<BnccDraft>)
      reads this
      ensures r == ItemsToSave(result.bnccs, selected)
      ensures |r| == |InRange(selected, |result.bnccs|)|
      ensures var idx := SelectedIndices(|result.bnccs|, selected);
        |r| == |idx| && forall k :: 0 <= k < |idx| ==> idx[k] < |result.bnccs| && r[k] == Draft(result.bnccs[idx[k]])
    {
      SelectedIndicesCount(|result.bnccs|, selected);
      ItemsToSaveFollowsSelection(result.bnccs, selected);
      ItemsToSave(result.bnccs, selected)
    }
  }
}

/**
 * The id selection shared by the list and grid components: toggling one id,
 * the list's select-all header, the reconciliation with a selection passed in
 * from the page, and the page's removal of deleted ids.
 */
module Selection {
  import opened Seqs

  /** `toggleSelection(id)`: remove the id if it is selected, append it otherwise. */
  function Toggle(selected: seq<int>, id: int): (r: seq<int>)
    ensures forall x :: x in r <==> (x in selected <==> x != id)
    ensures id !in selected ==> r == selected + [id]
  {
    if id in selected then Remove(selected, id) else selected + [id]
  }

  /** Toggling never touches the other ids: with the toggled id taken out, the
      selection is what it was, in the same order. */
  lemma ToggleKeepsOthers(selected: seq<int>, id: int)
    ensures Remove(Toggle(selected, id), id) == Remove(selected, id)
  {
    if id in selected {
      RemoveAbsent(Remove(selected, id), id);
    } else {
      RemoveAppended(selected, id);
      RemoveAbsent(selected, id);
    }
  }

  /** Toggling keeps a selection free of duplicates, and changes its length by one. */
  lemma ToggleNoDuplicates(selected: seq<int>, id: int)
    requires NoDuplicates(selected)
    ensures NoDuplicates(Toggle(selected, id))
    ensures |Toggle(selected, id)| == if id in selected then |selected| - 1 else |selected| + 1
  {
    if id in selected {
      RemoveNoDuplicates(selected, id);
      RemoveLength(selected, id);
    }
  }

  /** Toggling the same id twice restores the selection when the id was not selected,
      and restores its contents, with the id moved to the end, when it was. */
  lemma ToggleTwice(selected: seq<int>, id: int)
    ensures id !in selected ==> Toggle(Toggle(selected, id), id) == selected
    ensures id in selected ==> Toggle(Toggle(selected, id), id) == Remove(selected, id) + [id]
    ensures Elements(Toggle(Toggle(selected, id), id)) == Elements(selected)
  {
    if id !in selected {
      var once := selected + [id];
      assert Toggle(selected, id) == once;
      assert id in once;
      assert Toggle(once, id) == Remove(once, id);
      RemoveAppended(selected, id);
    } else {
      ToggleTwiceSelected(selected, id);
    }
  }

  /** Toggling a selected id twice moves it to the end. */
  lemma ToggleTwiceSelected(selected: seq<int>, id: int)
    requires id in selected
    ensures Toggle(Toggle(selected, id), id) == Remove(selected, id) + [id]
    ensures Elements(Toggle(Toggle(selected, id), id)) == Elements(selected)
  {
    var once := Remove(selected, id);
    assert Toggle(selected, id) == once;
    var twice := once + [id];
    assert Toggle(once, id) == twice;
    assert forall x :: x in twice <==> x in selected;
  }

  // ---- Select-all (list view only) ----

  /** The header checkbox: checked when the selection has as many ids as the page has rows. */
  predicate HeaderChecked(selected: seq<int>, pageIds: seq<int>) {
    |selected| == |pageIds|
  }

  /** `toggleSelectAll`: clear the whole selection when the header is checked, otherwise
      select exactly the page's ids. */
  function ToggleSelectAll(selected: seq<int>, pageIds: seq<int>): (r: seq<int>)
    ensures HeaderChecked(selected, pageIds) ==> r == []
    ensures !HeaderChecked(selected, pageIds) ==> r == pageIds
  {
    if |selected| == |pageIds| then [] else pageIds
  }

  /** Select-all compares counts only: one id selected on another page makes a one-row
      page look fully selected, and the header then clears that selection instead of
      selecting the row. */
  lemma SelectAllComparesCountsOnly()
    ensures HeaderChecked([7], [1])
    ensures ToggleSelectAll([7], [1]) == []
    ensures 1 !in ToggleSelectAll([7], [1])
  {
  }

  /** Selecting all and toggling again on the same page returns to an empty selection,
      unless the page is empty. */
  lemma SelectAllThenClear(selected: seq<int>, pageIds: seq<int>)
    requires !HeaderChecked(selected, pageIds)
    ensures HeaderChecked(ToggleSelectAll(selected, pageIds), pageIds)
    ensures ToggleSelectAll(ToggleSelectAll(selected, pageIds), pageIds) == []
  {
  }

  // ---- Reconciliation with the page's selection ----

  /** The `areEqual` test of the sync effect: same length, and every internal id is in
      the external selection. */
  predicate SameSelection(local: seq<int>, external: seq<int>) {
    |local| == |external| && forall i :: 0 <= i < |local| ==> local[i] in external
  }

  /** The sync effect: adopt the external selection unless it looks equal. */
  function Sync(local: seq<int>, external: seq<int>): (r: seq<int>)
    ensures r == local || r == external
    ensures r == external <== !SameSelection(local, external)
  {
    if SameSelection(local, external) then local else external
  }

  /** For duplicate-free selections the test is set equality, so after the sync the
      component holds exactly the external ids. */
  lemma SyncAdoptsExternalIds(local: seq<int>, external: seq<int>)
    requires NoDuplicates(local) && NoDuplicates(external)
    ensures SameSelection(local, external) <==> Elements(local) == Elements(external)
    ensures Elements(Sync(local, external)) == Elements(external)
  {
    ElementsOfDistinct(local);
    ElementsOfDistinct(external);
    if SameSelection(local, external) {
      SubsetOfSameSize(Elements(local), Elements(external));
    }
    if Elements(local) == Elements(external) {
      assert forall i :: 0 <= i < |local| ==> local[i] in Elements(external);
    }
  }

  /** With duplicates the length test is fooled: [1, 1] is kept against [1, 2]. */
  lemma SyncMissesDuplicates()
    ensures Sync([1, 1], [1, 2]) == [1, 1]
    ensures Elements([1, 1]) != Elements([1, 2])
  {
    assert 2 in Elements([1, 2]);
  }

  // ---- Removal of deleted ids ----

  /** `prev.filter(id => !ids.includes(id))`. */
  function RemoveAll(selected: seq<int>, ids: seq<int>): (r: seq<int>)
    ensures forall x :: x in r <==> x in selected && x !in ids
  {
    Filter(selected, (x: int) => x !in ids)
  }

  /** Removing the deleted ids keeps the survivors in order. */
  lemma RemoveAllKeepsOrder(selected: seq<int>, ids: seq<int>)
    ensures IsSubsequence(RemoveAll(selected, ids), selected)
    ensures NoDuplicates(selected) ==> NoDuplicates(RemoveAll(selected, ids))
  {
    FilterIsSubsequence(selected, (x: int) => x !in ids);
    if NoDuplicates(selected) {
      FilterNoDuplicates(selected, (x: int) => x !in ids);
    }
  }
}

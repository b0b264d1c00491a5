/**
  The commit resolver (`handleDragEnd`): when a drag ends inside the column
  the card came from, move the card to the hovered card's position. Moves
  across columns were already made by the last preview, so they are left
  alone here.
 */
module Commit {

  import opened Options
  import opened Boards
  import opened Locator
  import opened Seqs

  /**
    `handleDragEnd`. The result is `None` only where the source hands
    `arrayMove` an index of -1 (an id that names the column itself rather than
    one of its cards); what the sortable library does then is not modelled.
    Columns are compared by id; see `Locator.IdentityIsIdEquality`.
   */
  function DragEnd(b: Board, activeId: string, overId: Option<string>): (r: Option<Board>)
    ensures FindColumn(b, Some(activeId)).None? || FindColumn(b, overId).None? ==> r == Some(b)
    ensures (FindColumn(b, Some(activeId)).Some? && FindColumn(b, overId).Some? &&
             FindColumn(b, Some(activeId)).value.id != FindColumn(b, overId).value.id) ==> r == Some(b)
    ensures (FindColumn(b, Some(activeId)).Some? && FindColumn(b, overId).Some? &&
             CardIndex(FindColumn(b, Some(activeId)).value.cards, activeId)
               == CardIndex(FindColumn(b, overId).value.cards, overId.value)) ==> r == Some(b)
    ensures r.None? <==>
      (FindColumn(b, Some(activeId)).Some? && FindColumn(b, overId).Some? &&
       FindColumn(b, Some(activeId)).value.id == FindColumn(b, overId).value.id &&
       CardIndex(FindColumn(b, Some(activeId)).value.cards, activeId)
         != CardIndex(FindColumn(b, overId).value.cards, overId.value) &&
       (activeId !in Ids(FindColumn(b, Some(activeId)).value.cards) ||
        overId.value !in Ids(FindColumn(b, overId).value.cards)))
    ensures r.Some? ==> SameShape(b, r.value)
  {
    var activeColumn := FindColumn(b, Some(activeId));
    var overColumn := FindColumn(b, overId);
    if activeColumn.None? || overColumn.None? || activeColumn.value.id != overColumn.value.id then Some(b)
    else
      var activeIndex := CardIndex(activeColumn.value.cards, activeId);
      var overIndex := CardIndex(overColumn.value.cards, overId.value);
      if activeIndex == overIndex then Some(b)
      else if activeIndex < 0 || overIndex < 0 then None
      else
        IdentityIsIdEquality(b, Some(activeId), overId);
        Some(WithCards(b, activeColumn.value.id, ArrayMove(overColumn.value.cards, activeIndex, overIndex)))
  }

  /**
    A commit inside one column of a well-formed board: the column's new cards
    are a permutation of the old ones, the active card ends at the hovered
    card's old index, all other cards keep their relative order, and no other
    column changes.
   */
  lemma CommitReorders(b: Board, a: string, o: Option<string>, i: nat)
    requires WellFormed(b) && i < |b|
    requires FindColumn(b, Some(a)) == Some(b[i]) && FindColumn(b, o) == Some(b[i])
    requires a in Ids(b[i].cards) && o.value in Ids(b[i].cards)
    ensures DragEnd(b, a, o).Some?
    ensures |DragEnd(b, a, o).value| == |b|
    ensures multiset(DragEnd(b, a, o).value[i].cards) == multiset(b[i].cards)
    ensures DragEnd(b, a, o).value[i].cards[CardIndex(b[i].cards, o.value)] == b[i].cards[CardIndex(b[i].cards, a)]
    ensures Remove(DragEnd(b, a, o).value[i].cards, CardIndex(b[i].cards, o.value))
         == Remove(b[i].cards, CardIndex(b[i].cards, a))
    ensures forall n :: 0 <= n < |b| && n != i ==> DragEnd(b, a, o).value[n] == b[n]
  {
    var ai, oi := CardIndex(b[i].cards, a), CardIndex(b[i].cards, o.value);
    if ai != oi {
      WithCardsAt(b, i, ArrayMove(b[i].cards, ai, oi));
    }
  }

  /** A commit on a well-formed board keeps every card, and the board stays well formed. */
  lemma CommitKeepsCards(b: Board, a: string, o: Option<string>)
    requires WellFormed(b) && DragEnd(b, a, o).Some?
    ensures multiset(BoardCards(DragEnd(b, a, o).value)) == multiset(BoardCards(b))
    ensures multiset(BoardIds(DragEnd(b, a, o).value)) == multiset(BoardIds(b))
    ensures WellFormed(DragEnd(b, a, o).value)
  {
    var r := DragEnd(b, a, o).value;
    if r != b {
      var c := FindColumn(b, Some(a)).value;
      var i :| 0 <= i < |b| && b[i] == c;
      IdentityIsIdEquality(b, Some(a), o);
      assert FindColumn(b, o) == Some(b[i]);
      assert a in Ids(b[i].cards) && o.value in Ids(b[i].cards);
      CommitReorders(b, a, o, i);
      ReplaceOneColumn(b, r, i);
    }
    KeepsWellFormed(b, r);
  }
}

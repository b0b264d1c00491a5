/**
  The preview resolver (`handleDragOver`): while a card is dragged over a
  different column, move it there speculatively. The board is recomputed from
  the current snapshot and the current event, never accumulated.
 */
module Preview {

  import opened Options
  import opened Boards
  import opened Locator
  import opened Seqs

  /**
    The `newIndex` helper: after the hovered card when it is the last one and
    the pointer is below where the drag began, at the hovered card otherwise,
    and past the end when the hovered id is the column itself (`overIndex` is
    -1). `belowStart` is the source's `delta.y > 0`.
   */
  function NewIndex(n: nat, overIndex: int, belowStart: bool): (r: nat)
    ensures overIndex < 0 ==> r == n + 1
    ensures 0 <= overIndex ==> (r == overIndex + 1 <==> overIndex == n - 1 && belowStart)
    ensures 0 <= overIndex ==> (r == overIndex <==> !(overIndex == n - 1 && belowStart))
    ensures 0 <= overIndex < n ==> r <= n
  {
    var putOnBelowLastItem := overIndex == n - 1 && belowStart;
    var modifier := if putOnBelowLastItem then 1 else 0;
    if overIndex >= 0 then overIndex + modifier else n + 1
  }

  /**
    `[...over.slice(0, k), card, ...over.slice(k, over.length)]`: since
    `slice` clamps, this inserts at `k`, or appends when `k` is past the end.
   */
  function Placed(over: seq<Card>, k: nat, card: Card): (r: seq<Card>)
    ensures r == Insert(over, Min(k, |over|), card)
  {
    var m := Min(k, |over|);
    assert Slice(over, 0, k) == over[..m];
    assert Slice(over, k, |over|) == over[m..];
    Slice(over, 0, k) + [card] + Slice(over, k, |over|)
  }

  /** Where the dragged card lands in the hovered column. */
  lemma TargetIndexRules(over: seq<Card>, overIndex: int, belowStart: bool, card: Card)
    requires -1 <= overIndex < |over|
    ensures overIndex < 0 ==>
      Placed(over, NewIndex(|over|, overIndex, belowStart), card) == over + [card]
    ensures overIndex == |over| - 1 && belowStart ==>
      Placed(over, NewIndex(|over|, overIndex, belowStart), card) == over + [card]
    ensures 0 <= overIndex && !(overIndex == |over| - 1 && belowStart) ==>
      Placed(over, NewIndex(|over|, overIndex, belowStart), card) == over[..overIndex] + [card] + over[overIndex..]
  {
    var r := Placed(over, NewIndex(|over|, overIndex, belowStart), card);
    if overIndex < 0 || (overIndex == |over| - 1 && belowStart) {
      assert r == over[..|over|] + [card] + over[|over|..];
      assert over[..|over|] == over;
    }
  }

  /**
    `cards.filter(i => i.id !== a)`. `WithoutCounts` states that every other
    card stays as often as it occurs, and `WithoutConcat` that it stays in
    its order.
   */
  function Without(cards: seq<Card>, a: string): (r: seq<Card>)
    ensures forall k :: 0 <= k < |r| ==> r[k].id != a
    ensures forall c :: c in r <==> c in cards && c.id != a
    ensures |cards| == 1 ==> r == if cards[0].id == a then [] else cards
    ensures (forall k :: 0 <= k < |cards| ==> cards[k].id != a) ==> r == cards
    decreases |cards|
  {
    if |cards| == 0 then []
    else
      var rest := Without(cards[1..], a);
      assert forall c :: c in cards <==> c == cards[0] || c in cards[1..];
      (if cards[0].id == a then [] else [cards[0]]) + rest
  }

  /** The filter drops every copy of a card carrying `a` and keeps every copy of the others. */
  lemma {:induction false} WithoutCounts(cards: seq<Card>, a: string, c: Card)
    ensures multiset(Without(cards, a))[c] == if c.id == a then 0 else multiset(cards)[c]
    decreases |cards|
  {
    if |cards| > 0 {
      var head := if cards[0].id == a then [] else [cards[0]];
      WithoutCounts(cards[1..], a, c);
      assert cards == [cards[0]] + cards[1..];
      assert multiset(cards)[c] == multiset([cards[0]])[c] + multiset(cards[1..])[c];
      assert Without(cards, a) == head + Without(cards[1..], a);
      assert multiset(Without(cards, a))[c] == multiset(head)[c] + multiset(Without(cards[1..], a))[c];
    }
  }

  lemma {:induction false} WithoutConcat(s: seq<Card>, t: seq<Card>, a: string)
    ensures Without(s + t, a) == Without(s, a) + Without(t, a)
    decreases |s|
  {
    if |s| > 0 {
      var head := if s[0].id == a then [] else [s[0]];
      assert (s + t)[0] == s[0] && (s + t)[1..] == s[1..] + t;
      WithoutConcat(s[1..], t, a);
      assert Without(s + t, a) == head + Without(s[1..] + t, a);
      assert Without(s, a) == head + Without(s[1..], a);
    } else {
      assert s + t == t;
    }
  }

  /** Filtering out an id that occurs only at index `p` keeps the cards on either side of it. */
  lemma WithoutAround(s: seq<Card>, a: string, p: nat)
    requires p < |s|
    requires forall q :: 0 <= q < |s| && q != p ==> s[q].id != a
    ensures Without(s[..p], a) == s[..p]
    ensures Without(s[p + 1..], a) == s[p + 1..]
  {
    var pre, post := s[..p], s[p + 1..];
    forall k | 0 <= k < |pre|
      ensures pre[k].id != a
    {
      assert pre[k] == s[k];
    }
    forall k | 0 <= k < |post|
      ensures post[k].id != a
    {
      assert post[k] == s[p + 1 + k];
    }
  }

  /** Filtering out an id that occurs exactly once removes exactly that card. */
  lemma WithoutUnique(s: seq<Card>, a: string, p: nat)
    requires p < |s| && s[p].id == a
    requires forall q :: 0 <= q < |s| && q != p ==> s[q].id != a
    ensures Without(s, a) == Remove(s, p)
  {
    var pre, post := s[..p], s[p + 1..];
    assert s == pre + [s[p]] + post;
    WithoutAround(s, a, p);
    WithoutConcat(pre + [s[p]], post, a);
    WithoutConcat(pre, [s[p]], a);
    assert Without([s[p]], a) == [];
    assert Without(pre + [s[p]], a) == pre;
    assert Without(s, a) == pre + post;
    assert Remove(s, p) == pre + post;
  }

  /**
    `handleDragOver`. Nothing changes when either id resolves to no column or
    both resolve to the same column; nor when the active id names no card of
    its column (see the findings in the README for what the source does then).
    Otherwise the active card leaves its column and is placed in the hovered
    column at `newIndex`. Columns are compared by id; see
    `Locator.IdentityIsIdEquality`.
   */
  function DragOver(b: Board, activeId: string, overId: Option<string>, belowStart: bool): (r: Board)
    ensures SameShape(b, r)
    ensures FindColumn(b, Some(activeId)).None? || FindColumn(b, overId).None? ==> r == b
    ensures (FindColumn(b, Some(activeId)).Some? && FindColumn(b, overId).Some? &&
             FindColumn(b, Some(activeId)).value.id == FindColumn(b, overId).value.id) ==> r == b
    ensures !HoldsCard(b, activeId) ==> r == b
  {
    var activeColumn := FindColumn(b, Some(activeId));
    var overColumn := FindColumn(b, overId);
    if activeColumn.None? || overColumn.None? || activeColumn.value.id == overColumn.value.id then b
    else
      var activeItems := activeColumn.value.cards;
      var overItems := overColumn.value.cards;
      var activeIndex := CardIndex(activeItems, activeId);
      if activeIndex < 0 then b
      else
        assert HoldsCard(b, activeId) by {
          var k :| 0 <= k < |b| && b[k] == activeColumn.value;
        }
        var overIndex := CardIndex(overItems, overId.value);
        var k := NewIndex(|overItems|, overIndex, belowStart);
        // The two columns carry different ids, so the source's single `map`
        // with two branches is two successive replacements.
        WithCards(WithCards(b, activeColumn.value.id, Without(activeItems, activeId)),
                  overColumn.value.id, Placed(overItems, k, activeItems[activeIndex]))
  }

  /**
    The four parts of a preview that moves a card on a well-formed board: the
    source column loses exactly the active card, the hovered column gains it at
    the target index, every other column is untouched (and `DragOver` itself
    promises that ids, titles and the order of columns are kept).
   */
  lemma PreviewResult(b: Board, a: string, o: Option<string>, belowStart: bool, i: nat, j: nat)
    requires WellFormed(b)
    requires i < |b| && j < |b| && i != j
    requires FindColumn(b, Some(a)) == Some(b[i]) && FindColumn(b, o) == Some(b[j])
    requires a in Ids(b[i].cards)
    ensures CardIndex(b[i].cards, a) >= 0
    ensures DragOver(b, a, o, belowStart)[i].cards == Remove(b[i].cards, CardIndex(b[i].cards, a))
    ensures DragOver(b, a, o, belowStart)[j].cards ==
      Insert(b[j].cards,
             Min(NewIndex(|b[j].cards|, CardIndex(b[j].cards, o.value), belowStart), |b[j].cards|),
             b[i].cards[CardIndex(b[i].cards, a)])
    ensures forall n :: 0 <= n < |b| && n != i && n != j ==> DragOver(b, a, o, belowStart)[n] == b[n]
  {
    var ai := CardIndex(b[i].cards, a);
    forall q | 0 <= q < |b[i].cards| && q != ai
      ensures b[i].cards[q].id != a
    {
      UniqueWithinColumn(b, i, q, ai);
    }
    WithoutUnique(b[i].cards, a, ai);
  }

  /** The two columns a preview that changes the board works on. */
  lemma MovingColumns(b: Board, a: string, o: Option<string>, belowStart: bool) returns (i: nat, j: nat)
    requires WellFormed(b)
    ensures DragOver(b, a, o, belowStart) != b ==>
      && i < |b| && j < |b| && i != j
      && FindColumn(b, Some(a)) == Some(b[i]) && FindColumn(b, o) == Some(b[j])
      && a in Ids(b[i].cards)
  {
    i, j := 0, 0;
    if DragOver(b, a, o, belowStart) != b {
      var ac := FindColumn(b, Some(a)).value;
      var oc := FindColumn(b, o).value;
      i :| 0 <= i < |b| && b[i] == ac;
      j :| 0 <= j < |b| && b[j] == oc;
    }
  }

  /** A board that differs from `b` in columns `i` and `j` only, whose cards moved between them. */
  lemma MovedBetween(b: Board, r: Board, i: nat, j: nat, moved: Card)
    requires |r| == |b| && i < |b| && j < |b| && i != j
    requires forall n :: 0 <= n < |b| && n != i && n != j ==> r[n] == b[n]
    requires multiset(r[i].cards) + multiset{moved} == multiset(b[i].cards)
    requires multiset(r[j].cards) == multiset(b[j].cards) + multiset{moved}
    ensures multiset(BoardCards(r)) == multiset(BoardCards(b))
  {
    forall e
      ensures (multiset(r[i].cards) + multiset(r[j].cards))[e] == (multiset(b[i].cards) + multiset(b[j].cards))[e]
    {
      assert (multiset(r[i].cards) + multiset{moved})[e] == multiset(b[i].cards)[e];
      assert multiset(r[j].cards)[e] == (multiset(b[j].cards) + multiset{moved})[e];
    }
    assert multiset(r[i].cards) + multiset(r[j].cards) == multiset(b[i].cards) + multiset(b[j].cards);
    var t := b[i := r[i]][j := r[j]];
    forall n | 0 <= n < |r|
      ensures r[n] == t[n]
    {
    }
    assert r == t;
    ReplaceTwoColumns(b, i, j, r[i], r[j]);
  }

  /** A preview on a well-formed board keeps every card, and the board stays well formed. */
  lemma PreviewKeepsCards(b: Board, a: string, o: Option<string>, belowStart: bool)
    requires WellFormed(b)
    ensures multiset(BoardCards(DragOver(b, a, o, belowStart))) == multiset(BoardCards(b))
    ensures multiset(BoardIds(DragOver(b, a, o, belowStart))) == multiset(BoardIds(b))
    ensures WellFormed(DragOver(b, a, o, belowStart))
  {
    var r := DragOver(b, a, o, belowStart);
    if r != b {
      var i, j := MovingColumns(b, a, o, belowStart);
      PreviewResult(b, a, o, belowStart, i, j);
      var moved := b[i].cards[CardIndex(b[i].cards, a)];
      assert multiset(r[i].cards) + multiset{moved} == multiset(b[i].cards);
      assert multiset(r[j].cards) == multiset(b[j].cards) + multiset{moved};
      MovedBetween(b, r, i, j, moved);
    }
    KeepsWellFormed(b, r);
  }

  /**
    A column that keeps its id and at least its cards, on a board that stays
    well formed, is still what the hovered id resolves to.
   */
  lemma HoveredStillResolves(b: Board, r: Board, o: Option<string>, j: nat)
    requires WellFormed(b) && WellFormed(r) && SameShape(b, r)
    requires j < |b| && FindColumn(b, o) == Some(b[j])
    requires multiset(b[j].cards) <= multiset(r[j].cards)
    ensures FindColumn(r, o) == Some(r[j])
  {
    var over := o.value;
    if HasColumn(b, over) {
      LocatesColumn(r, over, j);
    } else {
      var k :| 0 <= k < |b| && b[k].id == b[j].id && over in Ids(b[k].cards);
      assert k == j;
      InIds(b[j].cards, over);
      var c :| c in b[j].cards && c.id == over;
      assert c in multiset(r[j].cards);
      InIds(r[j].cards, over);
      assert !HasColumn(r, over);
      LocatesCard(r, over, j);
    }
  }

  /**
    Once the active card sits in column `j` and is gone from column `i`, the
    active id resolves to column `j`, or (when it is also the id of column `i`)
    to column `i`, which no longer holds it.
   */
  lemma ActiveNowHovered(b: Board, r: Board, a: string, i: nat, j: nat, m: nat)
    requires WellFormed(b) && WellFormed(r) && SameShape(b, r)
    requires i < |b| && j < |b| && i != j
    requires FindColumn(b, Some(a)) == Some(b[i])
    requires m < |r[j].cards| && r[j].cards[m].id == a
    ensures FindColumn(r, Some(a)) == Some(r[j]) || (FindColumn(r, Some(a)) == Some(r[i]) && a !in Ids(r[i].cards))
  {
    assert Ids(r[j].cards)[m] == a;
    if HasColumn(b, a) {
      LocatesColumn(r, a, i);
      SingleOwner(r, j, i, a);
    } else {
      assert !HasColumn(r, a);
      LocatesCard(r, a, j);
    }
  }

  /**
    Re-applying the same drag-over event to the board it produced changes
    nothing: the active card now sits in the hovered column, so both ids
    resolve to the same column.
   */
  lemma PreviewIdempotent(b: Board, a: string, o: Option<string>, belowStart: bool)
    requires WellFormed(b)
    ensures DragOver(DragOver(b, a, o, belowStart), a, o, belowStart) == DragOver(b, a, o, belowStart)
  {
    var r := DragOver(b, a, o, belowStart);
    if r != b {
      var i, j := MovingColumns(b, a, o, belowStart);
      PreviewKeepsCards(b, a, o, belowStart);
      PreviewResult(b, a, o, belowStart, i, j);
      var m := Min(NewIndex(|b[j].cards|, CardIndex(b[j].cards, o.value), belowStart), |b[j].cards|);
      HoveredStillResolves(b, r, o, j);
      ActiveNowHovered(b, r, a, i, j, m);
      if FindColumn(r, Some(a)) == Some(r[i]) {
        assert CardIndex(r[i].cards, a) < 0;
      }
    }
  }

  /**
    On a well-formed board the active id resolves to a column that lacks it
    exactly when the active id is a column id: only a dragged column reaches
    the `activeItems[-1]` read.
   */
  lemma HoleNeedsColumnId(b: Board, a: string)
    requires WellFormed(b) && FindColumn(b, Some(a)).Some?
    ensures CardIndex(FindColumn(b, Some(a)).value.cards, a) < 0 <==> HasColumn(b, a)
  {
    var c := FindColumn(b, Some(a)).value;
    var i :| 0 <= i < |b| && b[i] == c && forall q :: 0 <= q < i ==> b[q].id != b[i].id;
    if HasColumn(b, a) {
      ColumnInBoard(b, i);
      assert a !in multiset(BoardIds(b));
      assert a !in multiset(Ids(b[i].cards));
    } else {
      var k :| 0 <= k < |b| && b[k].id == c.id && a in Ids(b[k].cards);
      assert k == i;
    }
  }

  /** `items[index]` in JavaScript: `undefined` (here `None`) outside the sequence. */
  function Read(items: seq<Card>, index: int): (r: Option<Card>)
    ensures r.Some? <==> 0 <= index < |items|
    ensures r.Some? ==> r.value == items[index]
  {
    if 0 <= index < |items| then Some(items[index]) else None
  }

  function Lift(cards: seq<Card>): (r: seq<Option<Card>>)
    ensures |r| == |cards| && None !in r
  {
    seq(|cards|, k requires 0 <= k < |cards| => Some(cards[k]))
  }

  /**
    The hovered column's new contents exactly as the source builds them,
    `[...slice, activeItems[activeIndex], ...slice]`, where a `None` slot is the
    `undefined` that an index of -1 reads.
   */
  function InsertedAsWritten(overItems: seq<Card>, k: nat, activeItems: seq<Card>, activeIndex: int)
    : (r: seq<Option<Card>>)
    ensures |r| == |overItems| + 1
    ensures 0 <= activeIndex < |activeItems| ==> r == Lift(Placed(overItems, k, activeItems[activeIndex]))
    ensures activeIndex < 0 ==> None in r
  {
    var m := Min(k, |overItems|);
    var front, back := Slice(overItems, 0, k), Slice(overItems, k, |overItems|);
    assert front == overItems[..m] && back == overItems[m..];
    var r := Lift(front) + [Read(activeItems, activeIndex)] + Lift(back);
    assert r[m] == Read(activeItems, activeIndex);
    assert 0 <= activeIndex < |activeItems| ==> r == Lift(Placed(overItems, k, activeItems[activeIndex])) by {
      if 0 <= activeIndex < |activeItems| {
        var p := Placed(overItems, k, activeItems[activeIndex]);
        assert p == front + [activeItems[activeIndex]] + back;
        forall n | 0 <= n < |r|
          ensures r[n] == Lift(p)[n]
        {
          if n < m {
            assert r[n] == Lift(front)[n];
          } else if n > m {
            assert r[n] == Lift(back)[n - m - 1];
          }
        }
      }
    }
    r
  }
}

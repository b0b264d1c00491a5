/**
  The board the example component starts with, and the concrete drags the
  resolver is meant to handle on it.
 */
module Scenarios {

  import opened Options
  import opened Boards
  import opened Locator
  import opened Preview
  import opened Commit
  import Seqs

  const Card1 := Card("Card1", "Card1")
  const Card2 := Card("Card2", "Card2")
  const Card3 := Card("Card3", "Card3")
  const Card4 := Card("Card4", "Card4")
  const Card5 := Card("Card5", "Card5")
  const Card6 := Card("Card6", "Card6")

  function Column1(cards: seq<Card>): Column {
    Column("Column1", "Column1", cards)
  }

  function Column2(cards: seq<Card>): Column {
    Column("Column2", "Column2", cards)
  }

  /** Two columns: Column1 = [Card1, Card2], Column2 = [Card3, Card4, Card5, Card6]. */
  const InitialBoard: Board := [Column1([Card1, Card2]), Column2([Card3, Card4, Card5, Card6])]

  /** A board laid out like the initial board, column by column. */
  predicate IsInitial(b: Board) {
    |b| == 2 && b[0] == Column1([Card1, Card2]) && b[1] == Column2([Card3, Card4, Card5, Card6])
  }

  lemma InitialBoardIsInitial()
    ensures IsInitial(InitialBoard)
  {
  }

  /** The initial board's card ids, in board order, each once. */
  lemma InitialIds(b: Board)
    requires IsInitial(b)
    ensures Ids(b[0].cards) == ["Card1", "Card2"]
    ensures Ids(b[1].cards) == ["Card3", "Card4", "Card5", "Card6"]
    ensures BoardIds(b) == ["Card1", "Card2", "Card3", "Card4", "Card5", "Card6"]
  {
    assert b[1..][1..] == [];
    assert BoardCards(b[1..][1..]) == [];
    assert BoardCards(b[1..]) == b[1].cards;
    assert BoardCards(b) == b[0].cards + b[1].cards;
  }

  lemma InitialCardIdsShort(b: Board)
    requires IsInitial(b)
    ensures forall n :: 0 <= n < |BoardIds(b)| ==> |BoardIds(b)[n]| == 5
  {
    InitialIds(b);
  }

  /** Card ids are five characters long and column ids seven, so none of them clash. */
  lemma InitialIdsSeparate(b: Board)
    requires IsInitial(b)
    ensures IdsSeparate(b)
  {
    InitialCardIdsShort(b);
    assert |b[0].id| == 7 && |b[1].id| == 7;
    forall x | x in multiset(BoardIds(b))
      ensures !HasColumn(b, x)
    {
      assert x in BoardIds(b);
    }
  }

  lemma InitialWellFormed(b: Board)
    requires IsInitial(b)
    ensures WellFormed(b)
  {
    InitialIds(b);
    InitialIdsSeparate(b);
  }

  /** Where each card of the initial board resolves. */
  lemma InitialLocations(b: Board, x: string, j: nat)
    requires IsInitial(b) && j < 2 && x in Ids(b[j].cards)
    ensures FindColumn(b, Some(x)) == Some(b[j])
  {
    InitialWellFormed(b);
    LocatesCard(b, x, j);
  }

  lemma Pair(r: Board, c0: Column, c1: Column)
    requires |r| == 2 && r[0] == c0 && r[1] == c1
    ensures r == [c0, c1]
  {
  }

  /** Column1 of the initial board without one of its cards. */
  lemma FirstColumnWithout(b: Board)
    requires IsInitial(b)
    ensures Seqs.Remove(b[0].cards, 0) == [Card2]
    ensures Seqs.Remove(b[0].cards, 1) == [Card1]
  {
  }

  lemma InsertSecond(s: seq<Card>, x: Card)
    requires |s| == 4
    ensures Seqs.Insert(s, 1, x) == [s[0], x, s[1], s[2], s[3]]
  {
  }

  /** Column2 of the initial board with a card placed second. */
  lemma SecondColumnWithSecond(b: Board, x: Card)
    requires IsInitial(b)
    ensures Seqs.Insert(b[1].cards, 1, x) == [Card3, x, Card4, Card5, Card6]
  {
    InsertSecond(b[1].cards, x);
  }

  /** Column2 of the initial board with a card placed last. */
  lemma SecondColumnWithLast(b: Board, x: Card)
    requires IsInitial(b)
    ensures Seqs.Insert(b[1].cards, 4, x) == [Card3, Card4, Card5, Card6, x]
  {
    assert Seqs.Insert(b[1].cards, 4, x) == b[1].cards + [x];
  }

  /** The index of every id in the initial board's columns. */
  lemma InitialCardIndexes(b: Board)
    requires IsInitial(b)
    ensures CardIndex(b[0].cards, "Card1") == 0 && CardIndex(b[0].cards, "Card2") == 1
    ensures CardIndex(b[0].cards, "Column1") == -1
    ensures CardIndex(b[1].cards, "Card3") == 0 && CardIndex(b[1].cards, "Card4") == 1
    ensures CardIndex(b[1].cards, "Card5") == 2 && CardIndex(b[1].cards, "Card6") == 3
    ensures CardIndex(b[1].cards, "Column2") == -1
  {
    InitialIds(b);
  }

  lemma FirstToThird(s: seq<Card>, t: seq<Card>)
    requires |s| == 4 && |t| == 4 && t[2] == s[0] && Seqs.Remove(t, 2) == Seqs.Remove(s, 0)
    ensures t == [s[1], s[2], s[0], s[3]]
  {
    assert Seqs.Remove(t, 2) == [t[0], t[1], t[3]];
    assert Seqs.Remove(s, 0) == [s[1], s[2], s[3]];
  }

  /** The card taken out of Column1 and where it goes in Column2, for an initial-board preview. */
  lemma PreviewFromFirstColumn(b: Board, a: string, o: Option<string>, below: bool, ai: nat, oi: int, k: nat)
    requires IsInitial(b) && FindColumn(b, Some(a)) == Some(b[0]) && FindColumn(b, o) == Some(b[1])
    requires ai < 2 && b[0].cards[ai].id == a && CardIndex(b[0].cards, a) == ai
    requires CardIndex(b[1].cards, o.value) == oi && Seqs.Min(NewIndex(4, oi, below), 4) == k
    ensures |DragOver(b, a, o, below)| == 2
    ensures DragOver(b, a, o, below)[0] == Column1(Seqs.Remove(b[0].cards, ai))
    ensures DragOver(b, a, o, below)[1] == Column2(Seqs.Insert(b[1].cards, k, b[0].cards[ai]))
  {
    InitialWellFormed(b);
    PreviewResult(b, a, o, below, 0, 1);
  }

  /** Card1 dragged over Card4 with the pointer no lower than where the drag began lands just before Card4. */
  lemma PreviewBeforeHoveredCard(b: Board)
    requires IsInitial(b)
    ensures DragOver(b, "Card1", Some("Card4"), false)
         == [Column1([Card2]), Column2([Card3, Card1, Card4, Card5, Card6])]
  {
    InitialIds(b);
    InitialCardIndexes(b);
    InitialLocations(b, "Card1", 0);
    InitialLocations(b, "Card4", 1);
    PreviewFromFirstColumn(b, "Card1", Some("Card4"), false, 0, 1, 1);
    FirstColumnWithout(b);
    SecondColumnWithSecond(b, Card1);
    Pair(DragOver(b, "Card1", Some("Card4"), false), Column1([Card2]), Column2([Card3, Card1, Card4, Card5, Card6]));
  }

  /** Card1 dragged over the last card, Card6, with the pointer below where the drag began lands after it. */
  lemma PreviewPastLastCard(b: Board)
    requires IsInitial(b)
    ensures DragOver(b, "Card1", Some("Card6"), true)
         == [Column1([Card2]), Column2([Card3, Card4, Card5, Card6, Card1])]
  {
    InitialIds(b);
    InitialCardIndexes(b);
    InitialLocations(b, "Card1", 0);
    InitialLocations(b, "Card6", 1);
    PreviewFromFirstColumn(b, "Card1", Some("Card6"), true, 0, 3, 4);
    FirstColumnWithout(b);
    SecondColumnWithLast(b, Card1);
    Pair(DragOver(b, "Card1", Some("Card6"), true), Column1([Card2]), Column2([Card3, Card4, Card5, Card6, Card1]));
  }

  /** Card2 dragged over the id of Column2 itself is appended to Column2. */
  lemma PreviewOverColumn(b: Board)
    requires IsInitial(b)
    ensures DragOver(b, "Card2", Some("Column2"), false)
         == [Column1([Card1]), Column2([Card3, Card4, Card5, Card6, Card2])]
  {
    InitialIds(b);
    InitialWellFormed(b);
    InitialLocations(b, "Card2", 0);
    LocatesColumn(b, "Column2", 1);
    InitialCardIndexes(b);
    PreviewFromFirstColumn(b, "Card2", Some("Column2"), false, 1, -1, 4);
    FirstColumnWithout(b);
    SecondColumnWithLast(b, Card2);
    Pair(DragOver(b, "Card2", Some("Column2"), false), Column1([Card1]), Column2([Card3, Card4, Card5, Card6, Card2]));
  }

  /** Dropping Card3 on Card5 in Column2 moves Card3 to Card5's old index. */
  lemma CommitWithinColumn(b: Board)
    requires IsInitial(b)
    ensures DragEnd(b, "Card3", Some("Card5"))
         == Some([Column1([Card1, Card2]), Column2([Card4, Card5, Card3, Card6])])
  {
    InitialIds(b);
    InitialWellFormed(b);
    InitialLocations(b, "Card3", 1);
    InitialLocations(b, "Card5", 1);
    InitialCardIndexes(b);
    CommitReorders(b, "Card3", Some("Card5"), 1);
    var r := DragEnd(b, "Card3", Some("Card5")).value;
    FirstToThird(b[1].cards, r[1].cards);
    Pair(r, Column1([Card1, Card2]), Column2([Card4, Card5, Card3, Card6]));
  }

  lemma HoleInSecondColumn(b: Board)
    requires IsInitial(b)
    ensures InsertedAsWritten(b[1].cards, 1, b[0].cards, -1)
         == [Some(Card3), None, Some(Card4), Some(Card5), Some(Card6)]
  {
  }

  /**
    As written, a drag whose active id is a column id (Column1 over Card4)
    passes the guard, reads `activeItems[-1]`, and puts `undefined` into
    Column2.
   */
  lemma DraggedColumnLeavesHole(b: Board)
    requires IsInitial(b)
    ensures FindColumn(b, Some("Column1")) == Some(b[0])
    ensures FindColumn(b, Some("Card4")) == Some(b[1])
    ensures CardIndex(b[0].cards, "Column1") == -1
    ensures InsertedAsWritten(b[1].cards, NewIndex(4, 1, false), b[0].cards, -1)
         == [Some(Card3), None, Some(Card4), Some(Card5), Some(Card6)]
  {
    HoleInSecondColumn(b);
    InitialWellFormed(b);
    InitialCardIndexes(b);
    LocatesColumn(b, "Column1", 0);
    InitialLocations(b, "Card4", 1);
  }

  /** The corrected preview leaves the board unchanged for the same drag. */
  lemma DraggedColumnIgnored(b: Board)
    requires IsInitial(b)
    ensures DragOver(b, "Column1", Some("Card4"), false) == b
  {
    InitialIds(b);
  }
}

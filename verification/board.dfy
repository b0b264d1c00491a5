/**
  The board: an ordered sequence of columns, each holding an ordered sequence
  of cards. Cards are identified by their id across the whole board, columns
  by their own id.
 */
module Boards {

  import Seqs

  datatype Card = Card(id: string, title: string)

  datatype Column = Column(id: string, title: string, cards: seq<Card>)

  type Board = seq<Column>

  /** The ids of a card sequence, position by position. */
  function Ids(cards: seq<Card>): (r: seq<string>)
    ensures |r| == |cards|
  {
    seq(|cards|, k requires 0 <= k < |cards| => cards[k].id)
  }

  /** All cards of the board, column after column (the source's `flatMap`). */
  function BoardCards(b: Board): seq<Card> {
    if |b| == 0 then [] else b[0].cards + BoardCards(b[1..])
  }

  function BoardIds(b: Board): seq<string> {
    Ids(BoardCards(b))
  }

  predicate HasColumn(b: Board, x: string) {
    exists k :: 0 <= k < |b| && b[k].id == x
  }

  predicate HoldsCard(b: Board, x: string) {
    exists k :: 0 <= k < |b| && x in Ids(b[k].cards)
  }

  predicate ColumnIdsUnique(b: Board) {
    forall p, q :: 0 <= p < |b| && 0 <= q < |b| && p != q ==> b[p].id != b[q].id
  }

  /** No card id occurs twice anywhere on the board. */
  predicate CardIdsUnique(b: Board) {
    forall x :: x in multiset(BoardIds(b)) ==> multiset(BoardIds(b))[x] <= 1
  }

  /** No card carries the id of a column, so the two kinds of id never shadow each other. */
  predicate IdsSeparate(b: Board) {
    forall x :: x in multiset(BoardIds(b)) ==> !HasColumn(b, x)
  }

  /**
    What the resolver expects of its callers: unique column ids, unique card
    ids, and no card id that is also a column id.
   */
  predicate WellFormed(b: Board) {
    ColumnIdsUnique(b) && CardIdsUnique(b) && IdsSeparate(b)
  }

  /** Drag operations never touch a column's identity or the order of columns. */
  predicate SameShape(b: Board, r: Board) {
    |r| == |b| && forall k :: 0 <= k < |b| ==> r[k].id == b[k].id && r[k].title == b[k].title
  }

  /**
    `columns.map(c => c.id === id ? {...c, cards} : c)`: every column carrying
    `id` gets `cards`; the others are returned as they are.
   */
  function WithCards(b: Board, id: string, cards: seq<Card>): (r: Board)
    ensures SameShape(b, r)
    ensures forall n :: 0 <= n < |b| && b[n].id != id ==> r[n] == b[n]
    ensures forall n :: 0 <= n < |b| && b[n].id == id ==> r[n].cards == cards
  {
    seq(|b|, n requires 0 <= n < |b| => if b[n].id == id then b[n].(cards := cards) else b[n])
  }

  /** On a board with unique column ids, that replaces the cards of exactly one column. */
  lemma WithCardsAt(b: Board, i: nat, cards: seq<Card>)
    requires ColumnIdsUnique(b) && i < |b|
    ensures WithCards(b, b[i].id, cards) == b[i := b[i].(cards := cards)]
  {
  }

  lemma IdsConcat(s: seq<Card>, t: seq<Card>)
    ensures Ids(s + t) == Ids(s) + Ids(t)
  {
    var l := Ids(s + t);
    var r := Ids(s) + Ids(t);
    assert |l| == |r|;
    forall k | 0 <= k < |l|
      ensures l[k] == r[k]
    {
      if k < |s| {
        assert (s + t)[k] == s[k];
      } else {
        assert (s + t)[k] == t[k - |s|];
      }
    }
  }

  lemma InIds(s: seq<Card>, x: string)
    ensures x in Ids(s) <==> exists c :: c in s && c.id == x
  {
    if x in Ids(s) {
      var k :| 0 <= k < |s| && Ids(s)[k] == x;
      assert s[k] in s;
    }
    if exists c :: c in s && c.id == x {
      var c :| c in s && c.id == x;
      var k :| 0 <= k < |s| && s[k] == c;
      assert Ids(s)[k] == x;
    }
  }

  lemma IdsRemove(s: seq<Card>, k: nat)
    requires k < |s|
    ensures multiset(Ids(s)) == multiset(Ids(Seqs.Remove(s, k))) + multiset{s[k].id}
  {
    assert s == s[..k] + [s[k]] + s[k + 1..];
    IdsConcat(s[..k] + [s[k]], s[k + 1..]);
    IdsConcat(s[..k], [s[k]]);
    IdsConcat(s[..k], s[k + 1..]);
    assert Ids([s[k]]) == [s[k].id];
  }

  /** Two sequences holding the same cards hold the same ids, with the same counts. */
  lemma {:induction false} IdsPermutation(s: seq<Card>, t: seq<Card>)
    requires multiset(s) == multiset(t)
    ensures multiset(Ids(s)) == multiset(Ids(t))
    decreases |s|
  {
    if |s| == 0 {
      assert |multiset(t)| == 0;
      assert t == [];
    } else {
      assert s[0] in multiset(t);
      var p :| 0 <= p < |t| && t[p] == s[0];
      var t' := Seqs.Remove(t, p);
      assert s == [s[0]] + s[1..];
      assert multiset(s) == multiset{s[0]} + multiset(s[1..]);
      assert multiset(t) == multiset(t') + multiset{s[0]};
      forall e
        ensures multiset(s[1..])[e] == multiset(t')[e]
      {
        assert multiset(s)[e] == multiset(t)[e];
      }
      assert multiset(s[1..]) == multiset(t');
      IdsPermutation(s[1..], t');
      IdsConcat([s[0]], s[1..]);
      assert Ids([s[0]]) == [s[0].id];
      IdsRemove(t, p);
    }
  }

  lemma {:induction false} BoardIdsSplit(b: Board)
    requires |b| > 0
    ensures BoardIds(b) == Ids(b[0].cards) + BoardIds(b[1..])
  {
    IdsConcat(b[0].cards, BoardCards(b[1..]));
  }

  /** The cards of one column are counted in the board's cards. */
  lemma {:induction false} ColumnInBoard(b: Board, i: nat)
    requires i < |b|
    ensures multiset(Ids(b[i].cards)) <= multiset(BoardIds(b))
    decreases i
  {
    BoardIdsSplit(b);
    if i > 0 {
      ColumnInBoard(b[1..], i - 1);
    }
  }

  /** The cards of two different columns are counted separately in the board's cards. */
  lemma {:induction false} TwoColumnsInBoard(b: Board, i: nat, j: nat)
    requires i < |b| && j < |b| && i != j
    ensures multiset(Ids(b[i].cards)) + multiset(Ids(b[j].cards)) <= multiset(BoardIds(b))
    decreases i + j
  {
    BoardIdsSplit(b);
    if i == 0 {
      ColumnInBoard(b[1..], j - 1);
    } else if j == 0 {
      ColumnInBoard(b[1..], i - 1);
    } else {
      TwoColumnsInBoard(b[1..], i - 1, j - 1);
    }
  }

  /** On a well-formed board every card id is held by at most one column. */
  lemma SingleOwner(b: Board, i: nat, j: nat, x: string)
    requires WellFormed(b)
    requires i < |b| && j < |b| && i != j
    requires x in Ids(b[i].cards)
    ensures x !in Ids(b[j].cards)
  {
    TwoColumnsInBoard(b, i, j);
    assert x in multiset(BoardIds(b)) ==> multiset(BoardIds(b))[x] <= 1;
  }

  /** On a well-formed board no column holds the same card id twice. */
  lemma UniqueWithinColumn(b: Board, i: nat, p: nat, q: nat)
    requires WellFormed(b)
    requires i < |b| && p < |b[i].cards| && q < |b[i].cards| && p != q
    ensures b[i].cards[p].id != b[i].cards[q].id
  {
    var s := Ids(b[i].cards);
    ColumnInBoard(b, i);
    if p < q {
      Seqs.CountTwo(s, p, q);
    } else {
      Seqs.CountTwo(s, q, p);
    }
    assert s[p] in multiset(BoardIds(b)) ==> multiset(BoardIds(b))[s[p]] <= 1;
  }

  /** Replacing one column changes the board's cards by exactly that column's difference. */
  lemma {:induction false} BoardCardsUpdate(b: Board, i: nat, c: Column)
    requires i < |b|
    ensures multiset(BoardCards(b[i := c])) + multiset(b[i].cards)
         == multiset(BoardCards(b)) + multiset(c.cards)
    decreases i
  {
    var u := b[i := c];
    assert BoardCards(u) == u[0].cards + BoardCards(u[1..]);
    assert BoardCards(b) == b[0].cards + BoardCards(b[1..]);
    if i == 0 {
      assert u[1..] == b[1..];
    } else {
      assert u[0] == b[0];
      assert u[1..] == b[1..][i - 1 := c];
      assert b[1..][i - 1] == b[i];
      BoardCardsUpdate(b[1..], i - 1, c);
      var lhs := multiset(BoardCards(u)) + multiset(b[i].cards);
      var rhs := multiset(BoardCards(b)) + multiset(c.cards);
      forall e
        ensures lhs[e] == rhs[e]
      {
        assert multiset(BoardCards(u))[e] == multiset(b[0].cards)[e] + multiset(BoardCards(u[1..]))[e];
        assert multiset(BoardCards(b))[e] == multiset(b[0].cards)[e] + multiset(BoardCards(b[1..]))[e];
        assert (multiset(BoardCards(b[1..][i - 1 := c])) + multiset(b[1..][i - 1].cards))[e]
            == (multiset(BoardCards(b[1..])) + multiset(c.cards))[e];
        assert multiset(BoardCards(u[1..]))[e] + multiset(b[i].cards)[e]
            == multiset(BoardCards(b[1..]))[e] + multiset(c.cards)[e];
      }
      assert lhs == rhs;
    }
  }

  /** Replacing two columns whose cards together are the same keeps the board's cards. */
  lemma ReplaceTwoColumns(b: Board, i: nat, j: nat, ci: Column, cj: Column)
    requires i < |b| && j < |b| && i != j
    requires multiset(ci.cards) + multiset(cj.cards) == multiset(b[i].cards) + multiset(b[j].cards)
    ensures multiset(BoardCards(b[i := ci][j := cj])) == multiset(BoardCards(b))
  {
    var u := b[i := ci];
    BoardCardsUpdate(b, i, ci);
    BoardCardsUpdate(u, j, cj);
    assert u[j] == b[j];
    var r := u[j := cj];
    forall e
      ensures multiset(BoardCards(r))[e] == multiset(BoardCards(b))[e]
    {
      assert (multiset(BoardCards(u)) + multiset(b[i].cards))[e] == (multiset(BoardCards(b)) + multiset(ci.cards))[e];
      assert (multiset(BoardCards(r)) + multiset(u[j].cards))[e] == (multiset(BoardCards(u)) + multiset(cj.cards))[e];
      assert (multiset(ci.cards) + multiset(cj.cards))[e] == (multiset(b[i].cards) + multiset(b[j].cards))[e];
    }
  }

  /** Rearranging the cards inside one column, and nothing else, keeps the board's cards. */
  lemma ReplaceOneColumn(b: Board, r: Board, i: nat)
    requires |r| == |b| && i < |b|
    requires forall n :: 0 <= n < |b| && n != i ==> r[n] == b[n]
    requires multiset(r[i].cards) == multiset(b[i].cards)
    ensures multiset(BoardCards(r)) == multiset(BoardCards(b))
  {
    assert r == b[i := r[i]];
    BoardCardsUpdate(b, i, r[i]);
    forall e
      ensures multiset(BoardCards(r))[e] == multiset(BoardCards(b))[e]
    {
      assert (multiset(BoardCards(r)) + multiset(b[i].cards))[e] == (multiset(BoardCards(b)) + multiset(r[i].cards))[e];
    }
  }

  /**
    A board that keeps its shape and its cards (as a multiset) stays well formed
    and keeps its card ids.
   */
  lemma KeepsWellFormed(b: Board, r: Board)
    requires WellFormed(b) && SameShape(b, r)
    requires multiset(BoardCards(r)) == multiset(BoardCards(b))
    ensures multiset(BoardIds(r)) == multiset(BoardIds(b))
    ensures WellFormed(r)
  {
    IdsPermutation(BoardCards(r), BoardCards(b));
    forall x | x in multiset(BoardIds(r))
      ensures !HasColumn(r, x)
    {
      assert !HasColumn(b, x);
    }
  }
}

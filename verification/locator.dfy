/**
  The identifier locator (`findColumn`): which column an id belongs to. A
  column id names its own column; a card id names the column holding the
  card; anything else, and a missing or empty id, names nothing.
 */
module Locator {

  import opened Options
  import opened Boards
  import Seqs

  /** `columns.find(c => c.id === x)` as an index, -1 when there is none. */
  function ColumnIndex(b: Board, x: string): (r: int)
    ensures -1 <= r < |b|
    ensures r >= 0 ==> b[r].id == x && forall k :: 0 <= k < r ==> b[k].id != x
    ensures r < 0 <==> !HasColumn(b, x)
  {
    Seqs.FindIndex(b, (c: Column) => c.id == x)
  }

  /**
    The first column holding a card with id `x`: the first entry of the
    flattened (card id, column id) list whose card id is `x` comes from it.
   */
  function OwnerIndex(b: Board, x: string): (r: int)
    ensures -1 <= r < |b|
    ensures r >= 0 ==> x in Ids(b[r].cards) && forall k :: 0 <= k < r ==> x !in Ids(b[k].cards)
    ensures r < 0 <==> !HoldsCard(b, x)
  {
    Seqs.FindIndex(b, (c: Column) => x in Ids(c.cards))
  }

  /** `cards.findIndex(i => i.id === x)`. */
  function CardIndex(cards: seq<Card>, x: string): (r: int)
    ensures -1 <= r < |cards|
    ensures r >= 0 ==> cards[r].id == x && forall k :: 0 <= k < r ==> cards[k].id != x
    ensures r < 0 <==> x !in Ids(cards)
  {
    var r := Seqs.FindIndex(cards, (c: Card) => c.id == x);
    assert r < 0 ==> forall k :: 0 <= k < |cards| ==> Ids(cards)[k] != x;
    assert r >= 0 ==> Ids(cards)[r] == x;
    r
  }

  /**
    `findColumn(unique)`. A JavaScript `null` is `None`; the empty string is
    falsy and resolves to nothing as well. Whatever the id, the column returned
    is looked up again by its own id, so it is always the first column carrying
    that id.
   */
  function FindColumn(b: Board, unique: Option<string>): (r: Option<Column>)
    ensures r.Some? ==> unique.Some? && unique.value != ""
    ensures r.None? <==>
      unique.None? || unique.value == "" || (!HasColumn(b, unique.value) && !HoldsCard(b, unique.value))
    ensures r.Some? ==>
      exists k :: 0 <= k < |b| && b[k] == r.value && forall q :: 0 <= q < k ==> b[q].id != b[k].id
    ensures r.Some? && HasColumn(b, unique.value) ==> r.value.id == unique.value
    ensures r.Some? && !HasColumn(b, unique.value) ==>
      exists k :: 0 <= k < |b| && b[k].id == r.value.id && unique.value in Ids(b[k].cards)
  {
    if unique.None? || unique.value == "" then None
    else
      var x := unique.value;
      var c := ColumnIndex(b, x);
      if c >= 0 then Some(b[c])
      else
        var o := OwnerIndex(b, x);
        if o < 0 then None
        else
          assert HasColumn(b, b[o].id);
          Some(b[ColumnIndex(b, b[o].id)])
  }

  /**
    The source compares resolved columns by object identity. Since every
    resolved column is the first one carrying its id, two resolved columns are
    the same column exactly when their ids agree.
   */
  lemma IdentityIsIdEquality(b: Board, x: Option<string>, y: Option<string>)
    requires FindColumn(b, x).Some? && FindColumn(b, y).Some?
    ensures FindColumn(b, x).value.id == FindColumn(b, y).value.id <==> FindColumn(b, x) == FindColumn(b, y)
  {
    var c := FindColumn(b, x).value;
    var d := FindColumn(b, y).value;
    var k :| 0 <= k < |b| && b[k] == c && forall q :: 0 <= q < k ==> b[q].id != b[k].id;
    var m :| 0 <= m < |b| && b[m] == d && forall q :: 0 <= q < m ==> b[q].id != b[m].id;
    if c.id == d.id {
      assert k == m;
    }
  }

  /** On a well-formed board a column id resolves to that column. */
  lemma LocatesColumn(b: Board, x: string, j: nat)
    requires WellFormed(b)
    requires x != "" && j < |b| && b[j].id == x
    ensures FindColumn(b, Some(x)) == Some(b[j])
  {
    var k :| 0 <= k < |b| && b[k] == FindColumn(b, Some(x)).value && forall q :: 0 <= q < k ==> b[q].id != b[k].id;
  }

  /** On a well-formed board a card id that is no column id resolves to the column holding the card. */
  lemma LocatesCard(b: Board, x: string, j: nat)
    requires WellFormed(b)
    requires x != "" && !HasColumn(b, x) && j < |b| && x in Ids(b[j].cards)
    ensures FindColumn(b, Some(x)) == Some(b[j])
  {
    var c := FindColumn(b, Some(x)).value;
    var k :| 0 <= k < |b| && b[k].id == c.id && x in Ids(b[k].cards);
    var i :| 0 <= i < |b| && b[i] == c && forall q :: 0 <= q < i ==> b[q].id != b[i].id;
    assert k == i;
    if k != j {
      SingleOwner(b, k, j, x);
    }
  }

  /** On a well-formed board: what an id resolves to, in both directions. */
  lemma FindColumnMeaning(b: Board, x: string, c: Column)
    requires WellFormed(b)
    ensures FindColumn(b, Some(x)) == Some(c) <==>
      x != "" && c in b && (c.id == x || (!HasColumn(b, x) && x in Ids(c.cards)))
  {
    if x != "" && c in b {
      var j :| 0 <= j < |b| && b[j] == c;
      if c.id == x {
        LocatesColumn(b, x, j);
      } else if !HasColumn(b, x) && x in Ids(c.cards) {
        LocatesCard(b, x, j);
      }
    }
    if FindColumn(b, Some(x)) == Some(c) {
      var i :| 0 <= i < |b| && b[i] == c && forall q :: 0 <= q < i ==> b[q].id != b[i].id;
      if !HasColumn(b, x) {
        var k :| 0 <= k < |b| && b[k].id == c.id && x in Ids(b[k].cards);
        assert k == i;
      }
    }
  }
}

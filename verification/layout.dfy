/** Where the ranked places are drawn: three columns of cards, filled in
    turn, so the i-th place goes to column `i % 3`. */
module Layout {

  /** `st.columns(3)`. */
  const ColumnCount := 3

  /** The column index `i % 3` the i-th card is drawn in. */
  function ColumnOf(i: nat): (c: nat)
    ensures c < ColumnCount
    ensures (i - c) % ColumnCount == 0
  {
    i % ColumnCount
  }

  /** The loop `for i, lugar in enumerate(...): with cols_cards[i % 3]`:
      appends each card, in ranking order, to the column `ColumnOf(i)`.
      Card i ends up in that column at row i / 3, and every slot of every
      column holds the card the round-robin order puts there; nothing is
      lost or drawn twice. */
  method PlaceCards<T>(cards: seq<T>) returns (columns: seq<seq<T>>)
    ensures |columns| == ColumnCount
    ensures forall i :: 0 <= i < |cards| ==>
      i / ColumnCount < |columns[ColumnOf(i)]| && columns[ColumnOf(i)][i / ColumnCount] == cards[i]
    ensures forall c, k :: 0 <= c < ColumnCount && 0 <= k < |columns[c]| ==>
      ColumnCount * k + c < |cards| && columns[c][k] == cards[ColumnCount * k + c]
    ensures |columns[0]| + |columns[1]| + |columns[2]| == |cards|
  {
    columns := [[], [], []];
    for i := 0 to |cards|
      invariant |columns| == ColumnCount
      invariant forall c :: 0 <= c < ColumnCount ==> |columns[c]| == (i + ColumnCount - 1 - c) / ColumnCount
      invariant forall c, k :: 0 <= c < ColumnCount && 0 <= k < |columns[c]| ==>
        ColumnCount * k + c < i && columns[c][k] == cards[ColumnCount * k + c]
    {
      var c := ColumnOf(i);
      assert |columns[c]| == i / ColumnCount;
      columns := columns[c := columns[c] + [cards[i]]];
    }
    forall i | 0 <= i < |cards|
      ensures i / ColumnCount < |columns[ColumnOf(i)]| && columns[ColumnOf(i)][i / ColumnCount] == cards[i]
    {
      var c, k := ColumnOf(i), i / ColumnCount;
      assert ColumnCount * k + c == i;
    }
  }
}

/** The button grids of the book and chapter pickers:
    `for (i in 0..num step perRow) Row { for (j in 0 until perRow) … }`,
    where slot `i + j` holds a button for index `i + j` when `i + j <= num`
    and, in the screens that fill rows, a spacer otherwise. */
module Layout {

  datatype Cell = Button(index: int) | Spacer

  /** The indices `0, 1, …, n - 1`. */
  function Upto(n: int): (r: seq<int>)
    ensures |r| == if n < 0 then 0 else n
    ensures forall k :: 0 <= k < |r| ==> r[k] == k
    ensures forall x :: x in r <==> 0 <= x < n
  {
    if n <= 0 then []
    else
      var r := seq(n, k => k);
      assert forall x | 0 <= x < n :: x in r by {
        forall x | 0 <= x < n
          ensures x in r
        {
          assert r[x] == x;
        }
      }
      r
  }

  /** The rows laid one after the other. */
  function Flatten(rows: seq<seq<Cell>>): seq<Cell> {
    if |rows| == 0 then [] else Flatten(rows[..|rows| - 1]) + rows[|rows| - 1]
  }

  /** The indices the buttons among `cells` select, in order. */
  function Buttons(cells: seq<Cell>): seq<int> {
    if |cells| == 0 then []
    else Buttons(cells[..|cells| - 1]) + (if cells[|cells| - 1].Button? then [cells[|cells| - 1].index] else [])
  }

  lemma {:induction false} ButtonsAppend(a: seq<Cell>, b: seq<Cell>)
    ensures Buttons(a + b) == Buttons(a) + Buttons(b)
    decreases |b|
  {
    if |b| == 0 {
      assert a + b == a;
    } else {
      var ab := a + b;
      assert ab[..|ab| - 1] == a + b[..|b| - 1];
      ButtonsAppend(a, b[..|b| - 1]);
    }
  }

  /** One row of the grid starting at index `start`. */
  method GridRow(start: int, num: int, perRow: int, spacers: bool) returns (row: seq<Cell>)
    requires perRow >= 1 && 0 <= start <= num
    ensures Buttons(row) == seq(if num - start + 1 < perRow then num - start + 1 else perRow, k => start + k)
    ensures |row| > 0 && row[0] == Button(start)
    ensures spacers ==> |row| == perRow
    ensures !spacers ==> forall c :: 0 <= c < |row| ==> row[c].Button?
  {
    row := [];
    var j := 0;
    while j < perRow
      invariant 0 <= j <= perRow
      invariant Buttons(row) == seq(if num - start + 1 < j then num - start + 1 else j, k => start + k)
      invariant j > 0 ==> |row| > 0 && row[0] == Button(start)
      invariant spacers ==> |row| == j
      invariant !spacers ==> forall c :: 0 <= c < |row| ==> row[c].Button?
    {
      var before := row;
      if start + j <= num {
        row := row + [Button(start + j)];
      } else if spacers {
        row := row + [Spacer];
      }
      assert row == before || row[..|row| - 1] == before;
      j := j + 1;
    }
  }

  /** Every row opens on a button; with `spacers` every row is full,
      otherwise rows hold buttons only. */
  predicate WellShaped(rows: seq<seq<Cell>>, perRow: int, spacers: bool) {
    (forall r :: 0 <= r < |rows| ==> |rows[r]| > 0 && rows[r][0].Button?)
    && (spacers ==> forall r :: 0 <= r < |rows| ==> |rows[r]| == perRow)
    && (!spacers ==> forall r, c :: 0 <= r < |rows| && 0 <= c < |rows[r]| ==> rows[r][c].Button?)
  }

  lemma UptoAppend(i: nat, k: nat)
    ensures Upto(i) + seq(k, j => i + j) == Upto(i + k)
  {
  }

  /** Appending one more row, as the grid's loop does. */
  lemma {:induction false} AppendRow(rows: seq<seq<Cell>>, row: seq<Cell>, perRow: int, spacers: bool)
    requires WellShaped(rows, perRow, spacers)
    requires |row| > 0 && row[0].Button?
    requires spacers ==> |row| == perRow
    requires !spacers ==> forall c :: 0 <= c < |row| ==> row[c].Button?
    ensures WellShaped(rows + [row], perRow, spacers)
    ensures Buttons(Flatten(rows + [row])) == Buttons(Flatten(rows)) + Buttons(row)
  {
    var all := rows + [row];
    assert all[..|all| - 1] == rows;
    ButtonsAppend(Flatten(rows), row);
  }

  /** The whole grid: every index `0..num` appears on exactly one button, in
      order, one row per step of `0..num step perRow`, every row opening on a
      button; with `spacers` every row is full, otherwise rows hold buttons
      only. */
  method Grid(num: int, perRow: int, spacers: bool) returns (rows: seq<seq<Cell>>)
    requires perRow >= 1
    ensures Buttons(Flatten(rows)) == Upto(num + 1)
    ensures |rows| == if num < 0 then 0 else num / perRow + 1
    ensures WellShaped(rows, perRow, spacers)
  {
    rows := [];
    var i := 0;
    while i <= num
      invariant 0 <= i && i == |rows| * perRow
      invariant i <= num + perRow || num < 0
      invariant num < 0 ==> |rows| == 0
      invariant Buttons(Flatten(rows)) == Upto(if i <= num + 1 then i else num + 1)
      invariant WellShaped(rows, perRow, spacers)
    {
      var row := GridRow(i, num, perRow, spacers);
      AppendRow(rows, row, perRow, spacers);
      UptoAppend(i, if num - i + 1 < perRow then num - i + 1 else perRow);
      assert (|rows| + 1) * perRow == |rows| * perRow + perRow;
      rows := rows + [row];
      i := i + perRow;
    }
    RowCount(num, perRow, |rows|);
  }

  lemma MulCancel(a: int, b: int, c: int)
    requires c >= 1 && a * c < b * c
    ensures a < b
  {
  }

  /** The number of rows is the number of steps of `0..num step perRow`. */
  lemma RowCount(num: int, perRow: int, n: nat)
    requires perRow >= 1
    requires n * perRow > num
    requires num >= 0 ==> n * perRow <= num + perRow
    requires num < 0 ==> n == 0
    ensures n == if num < 0 then 0 else num / perRow + 1
  {
    if num >= 0 {
      var q := num / perRow;
      assert q * perRow <= num < q * perRow + perRow;
      MulCancel(q, n, perRow);
      MulCancel(n, q + 2, perRow);
    }
  }
}

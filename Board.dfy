/** The shape of a puzzle grid.

    The source nests the grid three levels deep: three bands (`rows`), each of
    three sections (3x3 blocks), each of nine cells stored row-major inside the
    block. This model flattens it into 81 positions in band -> section -> cell
    order, the order in which the solver collects and visits cells. An entry is
    the cell's value, with 0 standing for an empty cell.
 */
module Board {

  /** Position of cell `cell` of section `section` of band `band`. */
  function Index(band: int, section: int, cell: int): (i: int)
    requires 0 <= band < 3 && 0 <= section < 3 && 0 <= cell < 9
    ensures 0 <= i < 81
  {
    27 * band + 9 * section + cell
  }

  function Band(i: int): int { i / 27 }
  function Section(i: int): int { i / 9 % 3 }
  function Cell(i: int): int { i % 9 }

  /** Block number (0..8, band-major) of position `i`. */
  function SectionOf(i: int): int { i / 9 }

  /** Global row: the band gives the top row, the cell's row inside its block the offset. */
  function RowOf(i: int): int { 3 * Band(i) + Cell(i) / 3 }

  /** Global column: the section gives the leftmost column, the cell's column inside its block the offset. */
  function ColOf(i: int): int { 3 * Section(i) + Cell(i) % 3 }

  /** Index and (Band, Section, Cell) are inverse to each other on the 81 positions. */
  lemma IndexRoundTrip()
    ensures forall i :: 0 <= i < 81 ==>
      0 <= Band(i) < 3 && 0 <= Section(i) < 3 && 0 <= Cell(i) < 9 &&
      Index(Band(i), Section(i), Cell(i)) == i
    ensures forall b, s, c :: 0 <= b < 3 && 0 <= s < 3 && 0 <= c < 9 ==>
      Band(Index(b, s, c)) == b && Section(Index(b, s, c)) == s && Cell(Index(b, s, c)) == c
  {
    forall i | 0 <= i < 81
      ensures 0 <= Band(i) < 3 && 0 <= Section(i) < 3 && 0 <= Cell(i) < 9 &&
        Index(Band(i), Section(i), Cell(i)) == i
    {
      Decompose(i);
    }
    forall b, s, c | 0 <= b < 3 && 0 <= s < 3 && 0 <= c < 9
      ensures Band(Index(b, s, c)) == b && Section(Index(b, s, c)) == s && Cell(Index(b, s, c)) == c
    {
      Compose(b, s, c);
    }
  }

  lemma Decompose(i: int)
    requires 0 <= i < 81
    ensures 0 <= Band(i) < 3 && 0 <= Section(i) < 3 && 0 <= Cell(i) < 9
    ensures Index(Band(i), Section(i), Cell(i)) == i
  {
    var q := i / 9;
    assert i == 9 * q + i % 9;
    assert q == 3 * (q / 3) + q % 3;
    assert i / 27 == q / 3;
  }

  lemma Compose(b: int, s: int, c: int)
    requires 0 <= b < 3 && 0 <= s < 3 && 0 <= c < 9
    ensures Band(Index(b, s, c)) == b && Section(Index(b, s, c)) == s && Cell(Index(b, s, c)) == c
  {
    var i := Index(b, s, c);
    DivBy27(i, b, 9 * s + c);
    DivBy9(i, 3 * b + s, c);
    DivBy3(3 * b + s, b, s);
  }

  lemma DivBy27(x: int, q: int, r: int)
    requires x == 27 * q + r && 0 <= r < 27
    ensures x / 27 == q && x % 27 == r
  {
  }

  lemma DivBy9(x: int, q: int, r: int)
    requires x == 9 * q + r && 0 <= r < 9
    ensures x / 9 == q && x % 9 == r
  {
  }

  lemma DivBy3(x: int, q: int, r: int)
    requires x == 3 * q + r && 0 <= r < 3
    ensures x / 3 == q && x % 3 == r
  {
  }

  /** Every position lies in one block, one row and one column, each numbered 0..8. */
  lemma CoordinatesInRange(i: int)
    requires 0 <= i < 81
    ensures 0 <= SectionOf(i) < 9 && 0 <= RowOf(i) < 9 && 0 <= ColOf(i) < 9
  {
  }

  /** The cell the validator reads as the k-th entry of global column c:
      cell (k % 3) * 3 + c % 3 of section c / 3 in band k / 3. */
  function ColumnCell(c: int, k: int): (i: int)
    requires 0 <= c < 9 && 0 <= k < 9
    ensures 0 <= i < 81
  {
    Index(k / 3, c / 3, (k % 3) * 3 + c % 3)
  }

  /** The cell the validator reads as the k-th entry of global row r:
      cell k % 3 + (r % 3) * 3 of section k / 3 in band r / 3. */
  function RowCell(r: int, k: int): (i: int)
    requires 0 <= r < 9 && 0 <= k < 9
    ensures 0 <= i < 81
  {
    Index(r / 3, k / 3, k % 3 + (r % 3) * 3)
  }

  /** As k runs over 0..8, the column gather visits the cells of global column c,
      the k-th being the one in global row k; so it visits each of them exactly once. */
  lemma ColumnGather(c: int)
    requires 0 <= c < 9
    ensures forall k :: 0 <= k < 9 ==> ColOf(ColumnCell(c, k)) == c && RowOf(ColumnCell(c, k)) == k
    ensures forall i :: 0 <= i < 81 && ColOf(i) == c ==> 0 <= RowOf(i) < 9 && ColumnCell(c, RowOf(i)) == i
  {
    IndexRoundTrip();
    forall k | 0 <= k < 9
      ensures ColOf(ColumnCell(c, k)) == c && RowOf(ColumnCell(c, k)) == k
    {
      var t := (k % 3) * 3 + c % 3;
      assert Cell(ColumnCell(c, k)) == t && Section(ColumnCell(c, k)) == c / 3 && Band(ColumnCell(c, k)) == k / 3;
      assert t / 3 == k % 3 && t % 3 == c % 3;
    }
    forall i | 0 <= i < 81 && ColOf(i) == c
      ensures 0 <= RowOf(i) < 9 && ColumnCell(c, RowOf(i)) == i
    {
      var k := RowOf(i);
      assert k / 3 == Band(i) && k % 3 == Cell(i) / 3;
      assert c / 3 == Section(i) && c % 3 == Cell(i) % 3;
    }
  }

  /** As k runs over 0..8, the row gather visits the cells of global row r,
      the k-th being the one in global column k; so it visits each of them exactly once. */
  lemma RowGather(r: int)
    requires 0 <= r < 9
    ensures forall k :: 0 <= k < 9 ==> RowOf(RowCell(r, k)) == r && ColOf(RowCell(r, k)) == k
    ensures forall i :: 0 <= i < 81 && RowOf(i) == r ==> 0 <= ColOf(i) < 9 && RowCell(r, ColOf(i)) == i
  {
    IndexRoundTrip();
    forall k | 0 <= k < 9
      ensures RowOf(RowCell(r, k)) == r && ColOf(RowCell(r, k)) == k
    {
      var t := k % 3 + (r % 3) * 3;
      assert Cell(RowCell(r, k)) == t && Section(RowCell(r, k)) == k / 3 && Band(RowCell(r, k)) == r / 3;
      assert t / 3 == r % 3 && t % 3 == k % 3;
    }
    forall i | 0 <= i < 81 && RowOf(i) == r
      ensures 0 <= ColOf(i) < 9 && RowCell(r, ColOf(i)) == i
    {
      var k := ColOf(i);
      assert k / 3 == Section(i) && k % 3 == Cell(i) % 3;
      assert r / 3 == Band(i) && r % 3 == Cell(i) / 3;
    }
  }

  /** A grid of the model's domain: 81 cells, each empty (0) or holding 1..9. */
  predicate WellFormed(g: seq<int>)
  {
    |g| == 81 && forall i :: 0 <= i < 81 ==> 0 <= g[i] <= 9
  }

  /** Every cell holds a value. */
  predicate Filled(g: seq<int>)
    requires |g| == 81
  {
    forall i :: 0 <= i < 81 ==> g[i] != 0
  }

  /** `b` keeps every value `a` holds: only cells empty in `a` may differ. */
  ghost predicate Extends(a: seq<int>, b: seq<int>)
  {
    |a| == |b| && forall i :: 0 <= i < |a| && a[i] != 0 ==> b[i] == a[i]
  }

  /** Number of empty cells. */
  function EmptyCount(s: seq<int>): nat
  {
    if s == [] then 0 else (if s[0] == 0 then 1 else 0) + EmptyCount(s[1..])
  }

  /** Filling cells never adds an empty cell, and filling one that was empty removes one. */
  lemma {:induction false} FillingDecreases(a: seq<int>, b: seq<int>)
    requires Extends(a, b)
    ensures EmptyCount(b) <= EmptyCount(a)
    ensures (exists i :: 0 <= i < |a| && a[i] == 0 && b[i] != 0) ==> EmptyCount(b) < EmptyCount(a)
  {
    if a != [] {
      assert Extends(a[1..], b[1..]) by {
        forall i | 0 <= i < |a[1..]| && a[1..][i] != 0 ensures b[1..][i] == a[1..][i] {
          assert a[1..][i] == a[i + 1];
        }
      }
      FillingDecreases(a[1..], b[1..]);
      if exists i :: 0 <= i < |a| && a[i] == 0 && b[i] != 0 {
        var i :| 0 <= i < |a| && a[i] == 0 && b[i] != 0;
        if i > 0 {
          assert a[1..][i - 1] == 0 && b[1..][i - 1] != 0;
        }
      }
    }
  }

  /** Strictly increasing. */
  predicate Ascending(s: seq<int>)
  {
    |s| < 2 || (s[0] < s[1] && Ascending(s[1..]))
  }

  /** In an ascending sequence an earlier entry is smaller than every later one. */
  lemma {:induction false} AscendingLess(s: seq<int>, j: int, l: int)
    requires Ascending(s) && 0 <= j < l < |s|
    ensures s[j] < s[l]
  {
    if j > 0 {
      AscendingLess(s[1..], j - 1, l - 1);
    } else if l > 1 {
      AscendingLess(s[1..], 0, l - 1);
    }
  }

  /** The empty cells of `g` from position `from` on, in visiting order
      (`cells.filter(cell => !cell.value)`). */
  function EmptyCellsFrom(g: seq<int>, from: int): (r: seq<int>)
    requires |g| == 81 && 0 <= from <= 81
    ensures forall k :: 0 <= k < |r| ==> from <= r[k] < 81
    ensures Ascending(r)
    ensures forall x :: x in r <==> from <= x < 81 && g[x] == 0
    decreases |g| - from
  {
    if from == 81 then []
    else if g[from] == 0 then
      var rest := EmptyCellsFrom(g, from + 1);
      assert ([from] + rest)[1..] == rest;
      [from] + rest
    else EmptyCellsFrom(g, from + 1)
  }

  /** `es` lists cells of `g` that are empty, in ascending order. */
  ghost predicate EmptyIn(g: seq<int>, es: seq<int>)
  {
    |g| == 81 && (forall j :: 0 <= j < |es| ==> 0 <= es[j] < 81 && g[es[j]] == 0) && Ascending(es)
  }

  /** `es` lists, in ascending order, exactly the empty cells of `g`. */
  ghost predicate ListsEmptyCells(g: seq<int>, es: seq<int>)
  {
    EmptyIn(g, es) && forall i :: 0 <= i < 81 && g[i] == 0 ==> i in es
  }

  /** The cells of `g` that are empty, in band -> section -> cell order. */
  function EmptyCells(g: seq<int>): (r: seq<int>)
    requires |g| == 81
    ensures ListsEmptyCells(g, r)
  {
    EmptyCellsFrom(g, 0)
  }
}

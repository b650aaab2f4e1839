/** The validator: `isValid` and `isSolved`.

    Each check gathers the nine values of one unit (a section, a global column
    or a global row), keeps the non-empty ones and compares their number with
    the size of the set they form. The functions only read the grid.
 */
module Validator {
  import opened Board

  /** The non-empty values of a unit, in order (the `!!i` filter). */
  function NonEmpty(s: seq<int>): (r: seq<int>)
    ensures |r| <= |s|
  {
    if s == [] then []
    else if s[0] == 0 then NonEmpty(s[1..])
    else [s[0]] + NonEmpty(s[1..])
  }

  /** `new Set(values)`: the values of a sequence as a set. */
  function ToSet(t: seq<int>): (r: set<int>)
    ensures |r| <= |t|
  {
    if t == [] then {} else {t[0]} + ToSet(t[1..])
  }

  /** The filter keeps exactly the non-empty values. */
  lemma {:induction false} NonEmptyMembers(s: seq<int>)
    ensures forall x :: x in NonEmpty(s) <==> x in s && x != 0
  {
    if s != [] {
      NonEmptyMembers(s[1..]);
      assert s == [s[0]] + s[1..];
    }
  }

  /** The set holds exactly the values of the sequence. */
  lemma {:induction false} ToSetMembers(t: seq<int>)
    ensures forall x :: x in ToSet(t) <==> x in t
  {
    if t != [] {
      ToSetMembers(t[1..]);
      assert t == [t[0]] + t[1..];
    }
  }

  /** `x` occurs in `t`. */
  predicate Occurs(x: int, t: seq<int>)
  {
    t != [] && (t[0] == x || Occurs(x, t[1..]))
  }

  lemma {:induction false} OccursIff(x: int, t: seq<int>)
    ensures Occurs(x, t) <==> x in t
  {
    if t != [] {
      OccursIff(x, t[1..]);
      assert t == [t[0]] + t[1..];
    }
  }

  /** The duplicate test of one unit: no non-empty value occurs again further on. */
  predicate NoRepeats(s: seq<int>)
  {
    s == [] || ((s[0] == 0 || !Occurs(s[0], s[1..])) && NoRepeats(s[1..]))
  }

  /** The test as the validator writes it: after dropping the empty cells, the values are as
      many as the distinct values among them. */
  predicate SizeTest(s: seq<int>)
  {
    var vs := NonEmpty(s);
    |ToSet(vs)| == |vs|
  }

  /** Reference meaning of a unit without duplicates: no two of its positions hold the same
      non-empty value. */
  ghost predicate NoClash(s: seq<int>)
  {
    forall i, j :: 0 <= i < |s| && 0 <= j < |s| && i != j && s[i] != 0 ==> s[i] != s[j]
  }

  ghost predicate AllDistinct(t: seq<int>)
  {
    forall i, j :: 0 <= i < j < |t| ==> t[i] != t[j]
  }

  /** A sequence has as many distinct elements as positions exactly when no element repeats. */
  lemma {:induction false} DistinctCount(t: seq<int>)
    ensures |ToSet(t)| <= |t|
    ensures |ToSet(t)| == |t| <==> AllDistinct(t)
  {
    if t != [] {
      var w := t[1..];
      DistinctCount(w);
      ToSetMembers(w);
      AllDistinctCons(t[0], w);
      assert t == [t[0]] + w;
      if t[0] in w {
        assert ToSet(t) == ToSet(w);
      } else {
        assert ToSet(t) - {t[0]} == ToSet(w);
      }
    }
  }

  lemma AllDistinctCons(x: int, u: seq<int>)
    ensures AllDistinct([x] + u) <==> x !in u && AllDistinct(u)
  {
    var t := [x] + u;
    if AllDistinct(t) {
      forall i, j | 0 <= i < j < |u| ensures u[i] != u[j] {
        assert u[i] == t[i + 1] && u[j] == t[j + 1];
      }
      forall m | 0 <= m < |u| ensures u[m] != x {
        assert t[0] != t[m + 1];
      }
    }
    if x !in u && AllDistinct(u) {
      forall i, j | 0 <= i < j < |t| ensures t[i] != t[j] {
        if i == 0 {
          assert t[j] == u[j - 1];
        } else {
          assert t[i] == u[i - 1] && t[j] == u[j - 1];
        }
      }
    }
  }

  lemma NoClashCons(x: int, u: seq<int>)
    ensures NoClash([x] + u) <==> (x != 0 ==> x !in u) && NoClash(u)
  {
    var t := [x] + u;
    if NoClash(t) {
      forall i, j | 0 <= i < |u| && 0 <= j < |u| && i != j && u[i] != 0 ensures u[i] != u[j] {
        assert u[i] == t[i + 1] && u[j] == t[j + 1];
      }
      forall m | 0 <= m < |u| && x != 0 ensures u[m] != x {
        assert t[0] != t[m + 1];
      }
    }
    if (x != 0 ==> x !in u) && NoClash(u) {
      forall i, j | 0 <= i < |t| && 0 <= j < |t| && i != j && t[i] != 0 ensures t[i] != t[j] {
        if i == 0 {
          assert t[j] == u[j - 1];
        } else if j == 0 {
          assert t[i] == u[i - 1];
        } else {
          assert t[i] == u[i - 1] && t[j] == u[j - 1];
        }
      }
    }
  }

  /** The duplicate test says exactly that no non-empty value repeats. */
  lemma {:induction false} NoRepeatsIffNoClash(s: seq<int>)
    ensures NoRepeats(s) <==> NoClash(s)
  {
    if s != [] {
      var t := s[1..];
      assert s == [s[0]] + t;
      NoRepeatsIffNoClash(t);
      NoClashCons(s[0], t);
      OccursIff(s[0], t);
    }
  }

  /** The size comparison the validator makes agrees with the duplicate test. */
  lemma SizeTestAgrees(s: seq<int>)
    ensures SizeTest(s) <==> NoRepeats(s)
  {
    DistinctCount(NonEmpty(s));
    NonEmptyDistinct(s);
    NoRepeatsIffNoClash(s);
  }

  lemma {:induction false} NonEmptyDistinct(s: seq<int>)
    ensures AllDistinct(NonEmpty(s)) <==> NoClash(s)
  {
    if s != [] {
      var t := s[1..];
      assert s == [s[0]] + t;
      NonEmptyDistinct(t);
      NoClashCons(s[0], t);
      if s[0] != 0 {
        NonEmptyMembers(t);
        AllDistinctCons(s[0], NonEmpty(t));
      }
    }
  }

  /** The nine values of section b (3 * band + section), in storage order. */
  function SectionValues(g: seq<int>, b: int): seq<int>
    requires |g| == 81 && 0 <= b < 9
  {
    g[9 * b .. 9 * b + 9]
  }

  /** The nine values of global column c, gathered band by band. */
  function ColumnValues(g: seq<int>, c: int): seq<int>
    requires |g| == 81 && 0 <= c < 9
  {
    seq(9, k requires 0 <= k < 9 => g[ColumnCell(c, k)])
  }

  /** The nine values of global row r, gathered section by section. */
  function RowValues(g: seq<int>, r: int): seq<int>
    requires |g| == 81 && 0 <= r < 9
  {
    seq(9, k requires 0 <= k < 9 => g[RowCell(r, k)])
  }

  /** The values of unit u, in the order `isValid` checks the units: the nine sections,
      then the nine columns, then the nine rows. */
  function UnitValues(g: seq<int>, u: int): seq<int>
    requires |g| == 81 && 0 <= u < 27
  {
    if u < 9 then SectionValues(g, u)
    else if u < 18 then ColumnValues(g, u - 9)
    else RowValues(g, u - 18)
  }

  /** The 27 units of `g`, in checking order. */
  function Units(g: seq<int>): (us: seq<seq<int>>)
    requires |g| == 81
    ensures |us| == 27
  {
    seq(27, u requires 0 <= u < 27 => UnitValues(g, u))
  }

  /** None of the units in `us` repeats a value; the first failing unit decides. */
  predicate AllNoRepeats(us: seq<seq<int>>)
  {
    us == [] || (NoRepeats(us[0]) && AllNoRepeats(us[1..]))
  }

  /** `isValid`: sections first, then columns, then rows. */
  predicate IsValid(g: seq<int>)
    requires |g| == 81
  {
    AllNoRepeats(Units(g))
  }

  /** `isSolved`: every cell holds a value and the grid is valid. */
  predicate IsSolved(g: seq<int>)
    requires |g| == 81
  {
    Filled(g) && IsValid(g)
  }

  /** Two distinct positions share a block, a global row or a global column. */
  predicate SameUnit(p: int, q: int)
  {
    SectionOf(p) == SectionOf(q) || RowOf(p) == RowOf(q) || ColOf(p) == ColOf(q)
  }

  /** Reference definition of a consistent grid, stated on global coordinates: no two cells
      of one block, row or column hold the same non-empty value. */
  ghost predicate Consistent(g: seq<int>)
    requires |g| == 81
  {
    forall p, q :: 0 <= p < 81 && 0 <= q < 81 && p != q && SameUnit(p, q) && g[p] != 0 ==> g[p] != g[q]
  }

  ghost predicate BlocksConsistent(g: seq<int>)
    requires |g| == 81
  {
    forall p, q :: 0 <= p < 81 && 0 <= q < 81 && p != q && SectionOf(p) == SectionOf(q) && g[p] != 0 ==> g[p] != g[q]
  }

  ghost predicate ColumnsConsistent(g: seq<int>)
    requires |g| == 81
  {
    forall p, q :: 0 <= p < 81 && 0 <= q < 81 && p != q && ColOf(p) == ColOf(q) && g[p] != 0 ==> g[p] != g[q]
  }

  ghost predicate RowsConsistent(g: seq<int>)
    requires |g| == 81
  {
    forall p, q :: 0 <= p < 81 && 0 <= q < 81 && p != q && RowOf(p) == RowOf(q) && g[p] != 0 ==> g[p] != g[q]
  }

  lemma ConsistentSplit(g: seq<int>)
    requires |g| == 81
    ensures Consistent(g) <==> BlocksConsistent(g) && ColumnsConsistent(g) && RowsConsistent(g)
  {
  }

  lemma {:induction false} AllNoRepeatsIff(us: seq<seq<int>>)
    ensures AllNoRepeats(us) <==> forall u :: 0 <= u < |us| ==> NoRepeats(us[u])
  {
    if us != [] {
      AllNoRepeatsIff(us[1..]);
      assert forall u :: 1 <= u < |us| ==> us[u] == us[1..][u - 1];
    }
  }

  /** The 27 unit checks are the nine section, column and row checks. */
  lemma UnitsSplit(g: seq<int>)
    requires |g| == 81
    ensures IsValid(g) <==>
      (forall b :: 0 <= b < 9 ==> NoRepeats(SectionValues(g, b))) &&
      (forall c :: 0 <= c < 9 ==> NoRepeats(ColumnValues(g, c))) &&
      (forall r :: 0 <= r < 9 ==> NoRepeats(RowValues(g, r)))
  {
    var us := Units(g);
    AllNoRepeatsIff(us);
    if IsValid(g) {
      forall b | 0 <= b < 9 ensures NoRepeats(SectionValues(g, b)) {
        assert us[b] == SectionValues(g, b);
      }
      forall c | 0 <= c < 9 ensures NoRepeats(ColumnValues(g, c)) {
        assert us[c + 9] == ColumnValues(g, c);
      }
      forall r | 0 <= r < 9 ensures NoRepeats(RowValues(g, r)) {
        assert us[r + 18] == RowValues(g, r);
      }
    } else {
      var u :| 0 <= u < 27 && !NoRepeats(us[u]);
      if u < 9 {
        assert us[u] == SectionValues(g, u);
      } else if u < 18 {
        assert us[u] == ColumnValues(g, u - 9);
      } else {
        assert us[u] == RowValues(g, u - 18);
      }
    }
  }

  lemma SectionsCheck(g: seq<int>)
    requires |g| == 81
    ensures (forall b :: 0 <= b < 9 ==> NoRepeats(SectionValues(g, b))) <==>
      BlocksConsistent(g)
  {
    if forall b :: 0 <= b < 9 ==> NoRepeats(SectionValues(g, b)) {
      forall p, q | 0 <= p < 81 && 0 <= q < 81 && p != q && SectionOf(p) == SectionOf(q) && g[p] != 0
        ensures g[p] != g[q]
      {
        var b := SectionOf(p);
        var s := SectionValues(g, b);
        NoRepeatsIffNoClash(s);
        assert s[p - 9 * b] == g[p] && s[q - 9 * b] == g[q];
      }
    } else {
      var b :| 0 <= b < 9 && !NoRepeats(SectionValues(g, b));
      var s := SectionValues(g, b);
      NoRepeatsIffNoClash(s);
      var i, j :| 0 <= i < 9 && 0 <= j < 9 && i != j && s[i] != 0 && s[i] == s[j];
      assert g[9 * b + i] == s[i] && g[9 * b + j] == s[j];
      assert SectionOf(9 * b + i) == b == SectionOf(9 * b + j);
    }
  }

  lemma ColumnsCheck(g: seq<int>)
    requires |g| == 81
    ensures (forall c :: 0 <= c < 9 ==> NoRepeats(ColumnValues(g, c))) <==>
      ColumnsConsistent(g)
  {
    if forall c :: 0 <= c < 9 ==> NoRepeats(ColumnValues(g, c)) {
      forall p, q | 0 <= p < 81 && 0 <= q < 81 && p != q && ColOf(p) == ColOf(q) && g[p] != 0
        ensures g[p] != g[q]
      {
        var c := ColOf(p);
        CoordinatesInRange(p);
        ColumnGather(c);
        var s := ColumnValues(g, c);
        NoRepeatsIffNoClash(s);
        assert s[RowOf(p)] == g[p] && s[RowOf(q)] == g[q];
      }
    } else {
      var c :| 0 <= c < 9 && !NoRepeats(ColumnValues(g, c));
      var s := ColumnValues(g, c);
      NoRepeatsIffNoClash(s);
      var i, j :| 0 <= i < 9 && 0 <= j < 9 && i != j && s[i] != 0 && s[i] == s[j];
      ColumnGather(c);
      assert RowOf(ColumnCell(c, i)) != RowOf(ColumnCell(c, j));
      assert g[ColumnCell(c, i)] == s[i] && g[ColumnCell(c, j)] == s[j];
    }
  }

  lemma RowsCheck(g: seq<int>)
    requires |g| == 81
    ensures (forall r :: 0 <= r < 9 ==> NoRepeats(RowValues(g, r))) <==>
      RowsConsistent(g)
  {
    if forall r :: 0 <= r < 9 ==> NoRepeats(RowValues(g, r)) {
      forall p, q | 0 <= p < 81 && 0 <= q < 81 && p != q && RowOf(p) == RowOf(q) && g[p] != 0
        ensures g[p] != g[q]
      {
        var r := RowOf(p);
        CoordinatesInRange(p);
        RowGather(r);
        var s := RowValues(g, r);
        NoRepeatsIffNoClash(s);
        assert s[ColOf(p)] == g[p] && s[ColOf(q)] == g[q];
      }
    } else {
      var r :| 0 <= r < 9 && !NoRepeats(RowValues(g, r));
      var s := RowValues(g, r);
      NoRepeatsIffNoClash(s);
      var i, j :| 0 <= i < 9 && 0 <= j < 9 && i != j && s[i] != 0 && s[i] == s[j];
      RowGather(r);
      assert ColOf(RowCell(r, i)) != ColOf(RowCell(r, j));
      assert g[RowCell(r, i)] == s[i] && g[RowCell(r, j)] == s[j];
    }
  }

  /** `isValid` holds exactly when no block, global column or global row holds a non-empty
      value twice; empty cells are ignored. */
  lemma ValidIffConsistent(g: seq<int>)
    requires |g| == 81
    ensures IsValid(g) <==> Consistent(g)
  {
    UnitsSplit(g);
    SectionsCheck(g);
    ColumnsCheck(g);
    RowsCheck(g);
    ConsistentSplit(g);
  }

  /** `isSolved` holds exactly when every cell is filled and no unit repeats a value;
      in particular a solved grid is valid. */
  lemma SolvedIff(g: seq<int>)
    requires |g| == 81
    ensures IsSolved(g) <==> Filled(g) && Consistent(g)
    ensures IsSolved(g) ==> IsValid(g)
  {
    ValidIffConsistent(g);
  }

  /** Emptying cells keeps a valid grid valid: validity of `b` carries over to every grid
      that `b` extends. */
  lemma ValidDownward(a: seq<int>, b: seq<int>)
    requires |a| == 81 && Extends(a, b) && IsValid(b)
    ensures IsValid(a)
  {
    ValidIffConsistent(a);
    ValidIffConsistent(b);
    ConsistentDownward(a, b);
  }

  /** The same for the reference definition: a grid that a consistent grid extends is
      consistent. */
  lemma ConsistentDownward(a: seq<int>, b: seq<int>)
    requires |a| == 81 && Extends(a, b) && Consistent(b)
    ensures Consistent(a)
  {
  }
}

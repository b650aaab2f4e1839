/** The solver `solveSudokuSmarter`.

    One call works in place on the grid: it collects the cells empty on entry,
    computes each one's candidate list in visiting order (committing a cell at
    once when it has a single candidate), re-validates, returns when the grid
    is solved, and otherwise branches on the first empty cell, trying its
    candidates in ascending order and recursing. Every failing return clears
    the cells that were empty on entry.
 */
module Solver {
  import opened Board
  import opened Validator

  /** The values 1 .. n-1, ascending, that keep the grid valid when placed at `e`: the list the
      trial loop has built once it has tried the values below n. */
  function CandidatesBelow(g: seq<int>, e: int, n: int): seq<int>
    requires |g| == 81 && 0 <= e < 81 && 1 <= n <= 10
    decreases |g| + n, 1
  {
    if n == 1 then [] else Tried(g, e, n - 1)
  }

  /** The list once value v has been tried: v is appended when placing it at `e` validates. */
  function Tried(g: seq<int>, e: int, v: int): seq<int>
    requires |g| == 81 && 0 <= e < 81 && 1 <= v <= 9
    decreases |g| + v + 1, 0
  {
    CandidatesBelow(g, e, v) + (if IsValid(g[e := v]) then [v] else [])
  }

  /** The trial loop keeps exactly the values below n whose placement at `e` validates. */
  lemma {:induction false} CandidatesBelowMember(g: seq<int>, e: int, n: int, v: int)
    requires |g| == 81 && 0 <= e < 81 && 1 <= n <= 10
    ensures v in CandidatesBelow(g, e, n) <==> 1 <= v < n && IsValid(g[e := v])
    decreases n
  {
    if n > 1 {
      CandidatesBelowMember(g, e, n - 1, v);
    }
  }

  /** ... and lists them in ascending order. Ascending is stated pairwise here, the form the
      callers use directly; `Board.Ascending` is the same order written recursively, which is
      cheaper to carry on the list of empty cells. */
  lemma {:induction false} CandidatesBelowAscending(g: seq<int>, e: int, n: int)
    requires |g| == 81 && 0 <= e < 81 && 1 <= n <= 10
    ensures var r := CandidatesBelow(g, e, n); forall k :: 0 <= k < |r| ==> 1 <= r[k] < n
    ensures var r := CandidatesBelow(g, e, n); forall k, l :: 0 <= k < l < |r| ==> r[k] < r[l]
    decreases n
  {
    if n > 1 {
      CandidatesBelowAscending(g, e, n - 1);
      var here := if IsValid(g[e := n - 1]) then [n - 1] else [];
      assert CandidatesBelow(g, e, n) == CandidatesBelow(g, e, n - 1) + here;
    }
  }

  /** The candidate list of cell `e` in grid `g`: strictly ascending within 1..9, and holding
      exactly the values whose placement at `e` keeps the grid valid. */
  function Candidates(g: seq<int>, e: int): (r: seq<int>)
    requires |g| == 81 && 0 <= e < 81
  {
    CandidatesBelow(g, e, 10)
  }

  /** A value is a candidate of `e` exactly when it lies in 1..9 and placing it keeps the grid
      valid. */
  lemma CandidateMember(g: seq<int>, e: int, v: int)
    requires |g| == 81 && 0 <= e < 81
    ensures v in Candidates(g, e) <==> 1 <= v <= 9 && IsValid(g[e := v])
  {
    CandidatesBelowMember(g, e, 10, v);
  }

  /** The candidate list is strictly ascending within 1..9 (pairwise, as in
      CandidatesBelowAscending). */
  lemma CandidatesAscending(g: seq<int>, e: int)
    requires |g| == 81 && 0 <= e < 81
    ensures var r := Candidates(g, e); forall k :: 0 <= k < |r| ==> 1 <= r[k] <= 9
    ensures var r := Candidates(g, e); forall k, l :: 0 <= k < l < |r| ==> r[k] < r[l]
  {
    CandidatesBelowAscending(g, e, 10);
    assert Candidates(g, e) == CandidatesBelow(g, e, 10);
  }

  /** The grid after the candidate pass has handled the first k cells of `es`: each cell whose
      candidate list, computed on the grid as it stands at that point, has one entry takes it. */
  function StateAt(g: seq<int>, es: seq<int>, k: int): (r: seq<int>)
    requires |g| == 81 && EmptyIn(g, es) && 0 <= k <= |es|
    ensures |r| == 81
    decreases k
  {
    if k == 0 then g
    else
      var h := StateAt(g, es, k - 1);
      var c := Candidates(h, es[k - 1]);
      if |c| == 1 then h[es[k - 1] := c[0]] else h
  }

  /** The pass only fills empty cells, with values 1..9, and the cells it has not reached yet
      are still empty. */
  lemma {:induction false} StateAtFacts(g: seq<int>, es: seq<int>, k: int)
    requires WellFormed(g) && EmptyIn(g, es) && 0 <= k <= |es|
    ensures WellFormed(StateAt(g, es, k)) && Extends(g, StateAt(g, es, k))
    ensures forall j :: k <= j < |es| ==> StateAt(g, es, k)[es[j]] == 0
    decreases k
  {
    if k > 0 {
      StateAtFacts(g, es, k - 1);
      var h := StateAt(g, es, k - 1);
      var e := es[k - 1];
      CandidatesAscending(h, e);
      forall j | k <= j < |es| ensures e != es[j] {
        AscendingLess(es, k - 1, j);
      }
    }
  }

  /** One step of the pass: the k-th cell takes its candidate when it has exactly one. */
  lemma StateAtStep(g: seq<int>, es: seq<int>, k: int)
    requires |g| == 81 && EmptyIn(g, es) && 0 <= k < |es|
    ensures var h := StateAt(g, es, k); var c := Candidates(h, es[k]);
      StateAt(g, es, k + 1) == if |c| == 1 then h[es[k] := c[0]] else h
  {
  }

  /** The candidate lists of the first k cells of `es`, each as computed when the pass reached
      that cell. */
  ghost function PassLists(g: seq<int>, es: seq<int>, k: int): (r: seq<seq<int>>)
    requires |g| == 81 && EmptyIn(g, es) && 0 <= k <= |es|
    ensures |r| == k
    decreases k
  {
    if k == 0 then [] else PassLists(g, es, k - 1) + [Candidates(StateAt(g, es, k - 1), es[k - 1])]
  }

  lemma PassListsStep(g: seq<int>, es: seq<int>, k: int)
    requires |g| == 81 && EmptyIn(g, es) && 0 <= k < |es|
    ensures PassLists(g, es, k + 1) == PassLists(g, es, k) + [Candidates(StateAt(g, es, k), es[k])]
  {
  }

  lemma {:induction false} PassListsIndex(g: seq<int>, es: seq<int>, k: int, j: int)
    requires |g| == 81 && EmptyIn(g, es) && 0 <= j < k <= |es|
    ensures PassLists(g, es, k)[j] == Candidates(StateAt(g, es, j), es[j])
    decreases k
  {
    if j < k - 1 {
      PassListsIndex(g, es, k - 1, j);
    }
  }

  /** The list the pass computes for its j-th cell is strictly ascending within 1..9 and holds
      exactly the values that keep the grid valid when placed there, in the grid as the pass
      left it at that point (the values forced at earlier cells included). */
  lemma PassListMeaning(g: seq<int>, es: seq<int>, j: int, v: int)
    requires |g| == 81 && EmptyIn(g, es) && 0 <= j < |es|
    ensures var c := PassLists(g, es, |es|)[j];
      v in c <==> 1 <= v <= 9 && IsValid(StateAt(g, es, j)[es[j] := v])
    ensures var c := PassLists(g, es, |es|)[j]; forall k :: 0 <= k < |c| ==> 1 <= c[k] <= 9
    ensures var c := PassLists(g, es, |es|)[j]; forall k, l :: 0 <= k < l < |c| ==> c[k] < c[l]
  {
    PassListsIndex(g, es, |es|, j);
    CandidateMember(StateAt(g, es, j), es[j], v);
    CandidatesAscending(StateAt(g, es, j), es[j]);
  }

  /** What the pass leaves on cell `e` whose candidate list was `c`: the single candidate and an
      emptied list, or no value and the whole list. */
  ghost predicate Settled(value: int, list: seq<int>, c: seq<int>)
  {
    if |c| == 1 then value == c[0] && list == [] else value == 0 && list == c
  }

  /** `s` is a solved grid of the model's domain that keeps every value of `g`. */
  ghost predicate Solves(s: seq<int>, g: seq<int>)
  {
    WellFormed(s) && Filled(s) && Consistent(s) && Extends(g, s)
  }

  ghost predicate Solvable(g: seq<int>)
  {
    exists s :: Solves(s, g)
  }

  /** A solution's value at any cell is a candidate of that cell in every grid it extends. */
  lemma SolutionValueIsCandidate(h: seq<int>, e: int, s: seq<int>)
    requires |h| == 81 && 0 <= e < 81 && Solves(s, h)
    ensures s[e] in Candidates(h, e)
  {
    var a := h[e := s[e]];
    ConsistentDownward(a, s);
    ValidIffConsistent(a);
    CandidateMember(h, e, s[e]);
  }

  /** Forced singletons are sound: every solution of the input agrees with the grid at every
      stage of the candidate pass. */
  lemma {:induction false} PassKeepsSolutions(g: seq<int>, es: seq<int>, k: int, s: seq<int>)
    requires WellFormed(g) && EmptyIn(g, es) && 0 <= k <= |es| && Solves(s, g)
    ensures Extends(StateAt(g, es, k), s)
    decreases k
  {
    if k > 0 {
      PassKeepsSolutions(g, es, k - 1, s);
      var h := StateAt(g, es, k - 1);
      var e := es[k - 1];
      var c := Candidates(h, e);
      SolutionValueIsCandidate(h, e, s);
      if |c| == 1 {
        assert c[0] == s[e];
        assert StateAt(g, es, k) == h[e := s[e]];
      } else {
        assert StateAt(g, es, k) == h;
      }
    }
  }

  /** An invalid grid has no solution. */
  lemma UnsolvableIfInvalid(h: seq<int>)
    requires |h| == 81 && !IsValid(h)
    ensures !Solvable(h)
  {
    forall s ensures !Solves(s, h) {
      if Solves(s, h) {
        ConsistentDownward(h, s);
        ValidIffConsistent(h);
      }
    }
  }

  /** A cell without candidates at some stage of the pass means the input has no solution. */
  lemma StuckPassUnsolvable(g: seq<int>, es: seq<int>, j: int)
    requires WellFormed(g) && EmptyIn(g, es) && 0 <= j < |es|
    requires |Candidates(StateAt(g, es, j), es[j])| == 0
    ensures !Solvable(g)
  {
    forall s ensures !Solves(s, g) {
      if Solves(s, g) {
        PassKeepsSolutions(g, es, j, s);
        SolutionValueIsCandidate(StateAt(g, es, j), es[j], s);
      }
    }
  }

  /** A grid that is invalid after the pass means the input has no solution. */
  lemma InvalidPassUnsolvable(g: seq<int>, es: seq<int>)
    requires WellFormed(g) && EmptyIn(g, es) && !IsValid(StateAt(g, es, |es|))
    ensures !Solvable(g)
  {
    forall s ensures !Solves(s, g) {
      if Solves(s, g) {
        PassKeepsSolutions(g, es, |es|, s);
        ConsistentDownward(StateAt(g, es, |es|), s);
        ValidIffConsistent(StateAt(g, es, |es|));
      }
    }
  }

  /** A solution of the input takes, at the j-th cell of the pass, one of the candidates that
      cell had at that point, and it solves the grid left by the pass with that value placed. */
  lemma BranchCovers(g: seq<int>, es: seq<int>, j: int, s: seq<int>)
    requires WellFormed(g) && EmptyIn(g, es) && 0 <= j < |es| && Solves(s, g)
    ensures s[es[j]] in Candidates(StateAt(g, es, j), es[j])
    ensures Solves(s, StateAt(g, es, |es|)[es[j] := s[es[j]]])
  {
    PassKeepsSolutions(g, es, j, s);
    PassKeepsSolutions(g, es, |es|, s);
    SolutionValueIsCandidate(StateAt(g, es, j), es[j], s);
  }

  /** Branching on one cell loses nothing: if no candidate that cell had when the pass reached it
      leads to a solution of the grid the pass left, the input has no solution. */
  lemma ExhaustedUnsolvable(g: seq<int>, es: seq<int>, j: int, cands: seq<int>)
    requires WellFormed(g) && EmptyIn(g, es) && 0 <= j < |es|
    requires cands == Candidates(StateAt(g, es, j), es[j])
    requires forall u :: u in cands ==> !Solvable(StateAt(g, es, |es|)[es[j] := u])
    ensures !Solvable(g)
  {
    forall s ensures !Solves(s, g) {
      if Solves(s, g) {
        BranchCovers(g, es, j, s);
      }
    }
  }

  /** Clearing cells that were empty on entry undoes everything done to them. */
  lemma ClearingRestores(g: seq<int>, h: seq<int>, es: seq<int>, r: seq<int>)
    requires ListsEmptyCells(g, es) && Extends(g, h) && |r| == 81
    requires forall i :: 0 <= i < 81 ==> r[i] == if i in es then 0 else h[i]
    ensures r == g
  {
    forall i | 0 <= i < 81 ensures r[i] == g[i] {
      if i in es {
        var k :| 0 <= k < |es| && es[k] == i;
      }
    }
  }

  class SudokuSolver {
    /** The cell values in band -> section -> cell order; 0 is an empty cell. */
    const grid: array<int>
    /** Each cell's `possibleValues` list, in the same order. */
    var possible: seq<seq<int>>

    ghost predicate Valid()
      reads this, grid
    {
      grid.Length == 81 && |possible| == 81 && WellFormed(grid[..])
    }

    constructor (values: seq<int>)
      requires WellFormed(values)
      ensures Valid() && fresh(grid) && grid[..] == values
      ensures forall i :: 0 <= i < 81 ==> possible[i] == []
    {
      grid := new int[81](i requires 0 <= i < 81 => values[i]);
      possible := seq(81, i => []);
    }

    /** Fills the candidate list of empty cell `e` by placing each value 1..9 in turn and
        validating; the cell is empty again afterwards. */
    method ComputePossibleValues(e: int)
      requires Valid() && 0 <= e < 81 && grid[e] == 0
      modifies this`possible, grid
      ensures Valid()
      ensures grid[..] == old(grid[..])
      ensures possible[e] == Candidates(old(grid[..]), e)
      ensures forall i :: 0 <= i < 81 && i != e ==> possible[i] == old(possible[i])
    {
      ghost var g := grid[..];
      possible := possible[e := []];
      for v := 1 to 10
        invariant Valid() && grid[..] == g
        invariant possible[e] == CandidatesBelow(g, e, v)
        invariant forall i :: 0 <= i < 81 && i != e ==> possible[i] == old(possible[i])
      {
        grid[e] := v;
        assert grid[..] == g[e := v];

        if !IsValid(grid[..]) {
          grid[e] := 0;
          assert grid[..] == g;
          continue;
        }

        possible := possible[e := possible[e] + [v]];
        grid[e] := 0;
        assert grid[..] == g;
      }
    }

    /** Sets every cell of `es` back to empty. */
    method ClearCells(es: seq<int>)
      requires Valid() && forall k :: 0 <= k < |es| ==> 0 <= es[k] < 81
      modifies grid
      ensures Valid()
      ensures forall i :: 0 <= i < 81 ==> grid[i] == if i in es then 0 else old(grid[i])
    {
      for k := 0 to |es|
        invariant Valid()
        invariant forall i :: 0 <= i < 81 ==> grid[i] == if i in es[..k] then 0 else old(grid[i])
      {
        assert es[..k + 1] == es[..k] + [es[k]];
        grid[es[k]] := 0;
      }
    }

    /** One cell of the candidate pass: computes the candidate list of empty cell `e` and, when
        it has a single entry, places that value and empties the list. Reports whether the list
        was empty. */
    method SettleCell(e: int) returns (stuck: bool)
      requires Valid() && 0 <= e < 81 && grid[e] == 0
      modifies this`possible, grid
      ensures Valid()
      ensures var c := Candidates(old(grid[..]), e);
        (stuck <==> |c| == 0) &&
        grid[..] == (if |c| == 1 then old(grid[..])[e := c[0]] else old(grid[..])) &&
        Settled(grid[e], possible[e], c)
      ensures forall i :: 0 <= i < 81 && i != e ==> possible[i] == old(possible[i])
    {
      ComputePossibleValues(e);
      CandidatesAscending(old(grid[..]), e);
      if |possible[e]| == 0 {
        return true;
      }
      if |possible[e]| == 1 {
        grid[e] := possible[e][0];
        possible := possible[e := []];
      }
      return false;
    }

    /** The candidate pass over the cells `es` empty on entry, in visiting order. It fails, with
        the grid as on entry, exactly when some cell has no candidate at the point it is
        reached; otherwise the grid is the pass's result and every cell of `es` is settled. */
    method ComputeCandidates(es: seq<int>) returns (ok: bool)
      requires Valid() && ListsEmptyCells(grid[..], es)
      modifies this`possible, grid
      ensures Valid()
      ensures ok <==> forall j :: 0 <= j < |es| ==> |PassLists(old(grid[..]), es, |es|)[j]| > 0
      ensures ok ==> grid[..] == StateAt(old(grid[..]), es, |es|)
      ensures ok ==> forall j :: 0 <= j < |es| ==>
        Settled(grid[es[j]], possible[es[j]], PassLists(old(grid[..]), es, |es|)[j])
      ensures !ok ==> grid[..] == old(grid[..])
      ensures forall i :: 0 <= i < 81 && i !in es ==> possible[i] == old(possible[i])
    {
      ghost var g := grid[..];
      // The candidate list each handled cell had when the pass reached it.
      ghost var lists: seq<seq<int>> := [];
      for k := 0 to |es|
        invariant Valid()
        invariant grid[..] == StateAt(g, es, k)
        invariant lists == PassLists(g, es, k)
        invariant forall j :: 0 <= j < k ==> |lists[j]| > 0 && Settled(grid[es[j]], possible[es[j]], lists[j])
        invariant forall i :: 0 <= i < 81 && i !in es ==> possible[i] == old(possible[i])
      {
        var e := es[k];
        ghost var h := grid[..];
        StateAtFacts(g, es, k);
        var stuck := SettleCell(e);
        if stuck {
          ClearCells(es);
          ClearingRestores(g, h, es, grid[..]);
          PassListsIndex(g, es, |es|, k);
          return false;
        }
        ghost var c := Candidates(h, e);
        lists := lists + [c];
        forall j | 0 <= j <= k
          ensures |lists[j]| > 0 && Settled(grid[es[j]], possible[es[j]], lists[j])
        {
          if j < k {
            AscendingLess(es, j, k);
          }
        }
        StateAtStep(g, es, k);
        PassListsStep(g, es, k);
      }
      ok := true;
    }

    /** The first empty cell in band -> section -> cell order. */
    method FirstEmpty() returns (e: int)
      requires Valid() && !Filled(grid[..])
      ensures 0 <= e < 81 && grid[e] == 0
      ensures forall i :: 0 <= i < e ==> grid[i] != 0
    {
      e := 0;
      while grid[e] != 0
        invariant 0 <= e < 81
        invariant exists i :: e <= i < 81 && grid[i] == 0
        invariant forall i :: 0 <= i < e ==> grid[i] != 0
        decreases 81 - e
      {
        e := e + 1;
      }
    }

    /** Tries the candidates of empty cell `e` in list order: places each one that keeps the grid
        valid and solves the rest recursively. On failure the grid is as on entry and none of the
        candidates leads to a solution. */
    method Branch(e: int) returns (found: bool)
      requires Valid() && 0 <= e < 81 && grid[e] == 0
      requires forall u :: u in possible[e] ==> 1 <= u <= 9
      modifies this, grid
      decreases EmptyCount(grid[..]), 0
      ensures Valid()
      ensures found ==> IsSolved(grid[..]) && Extends(old(grid[..]), grid[..])
      ensures found ==> exists t :: 0 <= t < |old(possible[e])| && grid[e] == old(possible[e])[t] &&
                          forall t' :: 0 <= t' < t ==> !Solvable(old(grid[..])[e := old(possible[e])[t']])
      ensures !found ==> grid[..] == old(grid[..]) &&
                         (forall u :: u in old(possible[e]) ==> !Solvable(old(grid[..])[e := u]))
      ensures forall i :: 0 <= i < 81 && old(grid[i]) != 0 ==> possible[i] == old(possible[i])
    {
      ghost var st := grid[..];
      var cands := possible[e];
      var valueSet := false;
      for t := 0 to |cands|
        invariant Valid() && grid[..] == st
        invariant !valueSet
        invariant forall u :: u in cands[..t] ==> !Solvable(st[e := u])
        invariant forall i :: 0 <= i < 81 && st[i] != 0 ==> possible[i] == old(possible[i])
      {
        assert cands[..t + 1] == cands[..t] + [cands[t]];
        var v := cands[t];
        assert v in cands;
        grid[e] := v;
        assert grid[..] == st[e := v];
        if !IsValid(grid[..]) {
          UnsolvableIfInvalid(grid[..]);
          grid[e] := 0;
          assert grid[..] == st;
          continue;
        }
        valueSet := true;
        assert st[e] == 0 && grid[e] != 0;
        FillingDecreases(st, grid[..]);
        var result := Solve();
        if result && IsSolved(grid[..]) {
          assert grid[e] == v;
          forall t' | 0 <= t' < t ensures !Solvable(st[e := cands[t']]) {
            assert cands[..t][t'] == cands[t'];
            assert cands[t'] in cands[..t];
          }
          return true;
        }
        grid[e] := 0;
        assert grid[..] == st;
        valueSet := false;
      }
      // valueSet is reset after every failed branch, so running out of candidates is a failure.
      assert !valueSet;
      assert cands[..|cands|] == cands;
      return false;
    }

    /** The search step of `solveSudokuSmarter`, for a grid left valid but unsolved by the
        candidate pass over the cells `es` empty in `g`: branches on the first empty cell, whose
        list is the one the pass computed for it, and on failure empties the cells of `es`. */
    method BranchOnFirstEmpty(ghost g: seq<int>, es: seq<int>) returns (found: bool)
      requires Valid() && WellFormed(g) && ListsEmptyCells(g, es)
      requires grid[..] == StateAt(g, es, |es|) && Extends(g, grid[..]) && !Filled(grid[..])
      requires forall j :: 0 <= j < |es| ==>
        Settled(grid[es[j]], possible[es[j]], PassLists(g, es, |es|)[j])
      modifies this, grid
      decreases EmptyCount(grid[..]), 1
      ensures Valid()
      ensures found ==> IsSolved(grid[..]) && Extends(g, grid[..])
      ensures !found ==> grid[..] == g && !Solvable(g)
      ensures forall i :: 0 <= i < 81 && g[i] != 0 ==> possible[i] == old(possible[i])
    {
      ghost var st := grid[..];
      var e := FirstEmpty();
      assert e in es;
      ghost var j :| 0 <= j < |es| && es[j] == e;
      PassListsIndex(g, es, |es|, j);
      CandidatesAscending(StateAt(g, es, j), e);
      ghost var cands := possible[e];
      assert cands == Candidates(StateAt(g, es, j), e);
      found := Branch(e);
      if found {
        return true;
      }
      ExhaustedUnsolvable(g, es, j, cands);
      ClearCells(es);
      ClearingRestores(g, st, es, grid[..]);
      return false;
    }

    /** `solveSudokuSmarter`. On success the grid, changed in place, is solved and keeps every
        value it held on entry; on failure it is exactly as on entry, and no solution extends
        it. A grid solved on entry is returned unchanged. */
    method Solve() returns (found: bool)
      requires Valid()
      modifies this, grid
      decreases EmptyCount(grid[..]), 2
      ensures Valid()
      ensures found ==> IsSolved(grid[..]) && Extends(old(grid[..]), grid[..])
      ensures !found ==> grid[..] == old(grid[..]) && !Solvable(old(grid[..]))
      ensures IsSolved(old(grid[..])) ==> found && grid[..] == old(grid[..])
      ensures !IsValid(old(grid[..])) ==> !found
      ensures forall i :: 0 <= i < 81 && old(grid[i]) != 0 ==> possible[i] == old(possible[i])
    {
      ghost var g := grid[..];
      var es := EmptyCells(grid[..]);
      var ok := ComputeCandidates(es);
      if !ok {
        ghost var j :| 0 <= j < |es| && |PassLists(g, es, |es|)[j]| == 0;
        PassListsIndex(g, es, |es|, j);
        StuckPassUnsolvable(g, es, j);
        return false;
      }
      ghost var st := grid[..];
      StateAtFacts(g, es, |es|);
      if !IsValid(grid[..]) {
        ClearCells(es);
        ClearingRestores(g, st, es, grid[..]);
        InvalidPassUnsolvable(g, es);
        return false;
      }
      if IsSolved(grid[..]) {
        ValidDownward(g, st);
        return true;
      }
      // Only the first empty cell is branched on: every path through it returns.
      FillingDecreases(g, st);
      found := BranchOnFirstEmpty(g, es);
      if found {
        ValidDownward(g, grid[..]);
      }
    }
  }
}

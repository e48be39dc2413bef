/** Per-cell states of mineMap and what the reveal operations may do to them,
    stated on the row-major sequence of cell states. */
module Cells {
  import opened Grid

  /** mineMap values: -1 not clicked yet, 0 opened, 1 flagged. */
  const HIDDEN := -1
  const OPENED := 0
  const FLAGGED := 1

  /** The cells (flat indices) whose state is v. */
  function CellsIn(s: seq<int>, v: int): set<int> {
    set i | 0 <= i < |s| && s[i] == v
  }

  /** Cell q (a row-column pair) is on the board s and in state v. */
  predicate StateIs(s: seq<int>, w: int, q: (int, int), v: int) {
    0 <= Flat(w, q.0, q.1) < |s| && s[Flat(w, q.0, q.1)] == v
  }

  /** The cells of L in state v, in order: what quickOpenSetup pushes onto
      unopened (v = -1) or flagged (v = 1) over the neighbours L. */
  function WithState(s: seq<int>, w: int, L: seq<(int, int)>, v: int): (k: seq<(int, int)>)
    ensures |k| <= |L|
  {
    if L == [] then []
    else WithState(s, w, L[..|L| - 1], v) + (if StateIs(s, w, L[|L| - 1], v) then [L[|L| - 1]] else [])
  }

  /** WithState keeps exactly the cells of L in state v. */
  lemma {:induction false} WithStateMembers(s: seq<int>, w: int, L: seq<(int, int)>, v: int)
    ensures forall q :: q in WithState(s, w, L, v) <==> q in L && StateIs(s, w, q, v)
  {
    if L != [] {
      var p := L[..|L| - 1];
      WithStateMembers(s, w, p, v);
      assert L == p + [L[|L| - 1]];
    }
  }

  lemma WithStateSnoc(s: seq<int>, w: int, L: seq<(int, int)>, t: int, v: int)
    requires 0 <= t < |L|
    ensures WithState(s, w, L[..t + 1], v)
         == WithState(s, w, L[..t], v) + (if StateIs(s, w, L[t], v) then [L[t]] else [])
  {
    assert L[..t + 1][..t] == L[..t];
  }

  /** The per-cell part of the board invariant: every state is -1, 0 or 1,
      no opened cell is a mine, and procCnt and flagCnt count the opened and
      the flagged cells. */
  ghost predicate CellsOk(s: seq<int>, mines: seq<int>, procCnt: int, flagCnt: int) {
    (forall i :: 0 <= i < |s| ==> HIDDEN <= s[i] <= FLAGGED) &&
    (forall i :: 0 <= i < |s| && s[i] == OPENED ==> i !in mines) &&
    procCnt == |CellsIn(s, OPENED)| && flagCnt == |CellsIn(s, FLAGGED)|
  }

  /** Opening a hidden cell without a mine, with procCnt + 1, keeps the invariant. */
  lemma OpenKeeps(s: seq<int>, mines: seq<int>, procCnt: int, flagCnt: int, i: int)
    requires CellsOk(s, mines, procCnt, flagCnt) && 0 <= i < |s| && s[i] == HIDDEN && i !in mines
    ensures CellsOk(s[i := OPENED], mines, procCnt + 1, flagCnt)
  {
    UpdateCells(s, i, OPENED, OPENED);
    UpdateCells(s, i, OPENED, FLAGGED);
  }

  /** The flag toggle, with flagCnt moved by one in the same direction,
      keeps the invariant; procCnt is untouched. */
  lemma ToggleKeeps(s: seq<int>, mines: seq<int>, procCnt: int, flagCnt: int, i: int)
    requires CellsOk(s, mines, procCnt, flagCnt) && 0 <= i < |s|
    ensures CellsOk(s[i := Toggled(s[i])], mines, procCnt,
      flagCnt + (if s[i] == HIDDEN then 1 else if s[i] == FLAGGED then -1 else 0))
  {
    if s[i] == HIDDEN {
      SetKeeps(s, mines, procCnt, flagCnt, i, FLAGGED);
    } else if s[i] == FLAGGED {
      SetKeeps(s, mines, procCnt, flagCnt, i, HIDDEN);
    } else {
      assert s[i := Toggled(s[i])] == s;
    }
  }

  /** Swapping a cell between hidden and flagged keeps the invariant, with
      flagCnt following the number of flags. */
  lemma SetKeeps(s: seq<int>, mines: seq<int>, procCnt: int, flagCnt: int, i: int, x: int)
    requires CellsOk(s, mines, procCnt, flagCnt) && 0 <= i < |s|
    requires (s[i] == HIDDEN && x == FLAGGED) || (s[i] == FLAGGED && x == HIDDEN)
    ensures CellsOk(s[i := x], mines, procCnt, flagCnt + (if x == FLAGGED then 1 else -1))
  {
    var t := s[i := x];
    UpdateCells(s, i, x, OPENED);
    UpdateCells(s, i, x, FLAGGED);
    assert procCnt == |CellsIn(t, OPENED)|;
    assert flagCnt + (if x == FLAGGED then 1 else -1) == |CellsIn(t, FLAGGED)|;
    forall j | 0 <= j < |t| ensures HIDDEN <= t[j] <= FLAGGED && (t[j] == OPENED ==> j !in mines) {
      if j != i {
        assert t[j] == s[j];
      }
    }
  }

  /** The right-click transition of one cell: -1 and 1 swap, an opened cell stays. */
  function Toggled(v: int): int {
    if v == HIDDEN then FLAGGED else if v == FLAGGED then HIDDEN else v
  }

  /** Two right clicks on a cell restore its state. */
  lemma ToggledTwice(v: int)
    ensures Toggled(Toggled(v)) == v
  {
  }

  /** after arises from before by opening hidden cells only: no cell is
      hidden again, no flag is set, cleared or opened. */
  predicate Grows(before: seq<int>, after: seq<int>) {
    |before| == |after| &&
    forall i :: 0 <= i < |after| ==> after[i] == before[i] || (before[i] == HIDDEN && after[i] == OPENED)
  }

  /** Cell j was opened between before and after. */
  predicate NewlyOpened(before: seq<int>, after: seq<int>, j: int) {
    0 <= j < |before| && j < |after| && before[j] == HIDDEN && after[j] == OPENED
  }

  /** Every cell other than x that was opened between before and after with
      adjacency count 0 has no hidden neighbour left after. */
  ghost predicate ClosedBut(h: int, w: int, cnt: seq<int>, before: seq<int>, after: seq<int>, x: int)
    requires 0 < w && |cnt| == |before| == |after| == h * w
  {
    forall j, k :: NewlyOpened(before, after, j) && j != x && cnt[j] == 0 && Adjacent(h, w, j, k) ==>
      after[k] != HIDDEN
  }

  /** The flood fill is closed: every cell it opened with count 0 has all
      its neighbours revealed (or flagged) afterwards. */
  ghost predicate Closed(h: int, w: int, cnt: seq<int>, before: seq<int>, after: seq<int>)
    requires 0 < w && |cnt| == |before| == |after| == h * w
  {
    ClosedBut(h, w, cnt, before, after, -1)
  }

  /** depth ranks the cells opened between before and after: every one of
      them outside roots has an adjacent opened cell of count 0 with a
      lower rank. Following lower ranks from any opened cell therefore ends
      in roots (see RankedPath). */
  ghost predicate Ranked(h: int, w: int, cnt: seq<int>, before: seq<int>, after: seq<int>, roots: set<int>, depth: seq<nat>)
    requires 0 < w && |cnt| == |before| == |after| == h * w
  {
    |depth| == h * w &&
    forall j :: NewlyOpened(before, after, j) && j !in roots ==>
      exists k :: Adjacent(h, w, j, k) && NewlyOpened(before, after, k) && cnt[k] == 0 && depth[k] < depth[j]
  }

  /** Every cell opened between before and after was reached from roots
      through opened cells of adjacency count 0. */
  ghost predicate Reached(h: int, w: int, cnt: seq<int>, before: seq<int>, after: seq<int>, roots: set<int>)
    requires 0 < w && |cnt| == |before| == |after| == h * w
  {
    exists depth: seq<nat> :: Ranked(h, w, cnt, before, after, roots, depth)
  }

  /** p is a walk of opened cells from a root, each step to an adjacent
      cell, every cell but the last of count 0: the way a recursive reveal
      travels. */
  ghost predicate FillPath(h: int, w: int, cnt: seq<int>, before: seq<int>, after: seq<int>, roots: set<int>, p: seq<int>)
    requires 0 < w && |cnt| == |before| == |after| == h * w
  {
    |p| > 0 && p[0] in roots &&
    (forall m :: 0 <= m < |p| ==> NewlyOpened(before, after, p[m])) &&
    (forall m :: 0 <= m < |p| - 1 ==> 0 <= p[m] < |cnt| && cnt[p[m]] == 0 && Adjacent(h, w, p[m], p[m + 1]))
  }

  /** A ranked opened cell lies at the end of a fill path from a root. */
  lemma {:induction false} RankedPath(h: int, w: int, cnt: seq<int>, before: seq<int>, after: seq<int>, roots: set<int>, depth: seq<nat>, j: int)
    requires 0 < w && |cnt| == |before| == |after| == h * w
    requires Ranked(h, w, cnt, before, after, roots, depth) && NewlyOpened(before, after, j)
    ensures exists p :: FillPath(h, w, cnt, before, after, roots, p) && p[|p| - 1] == j
    decreases depth[j]
  {
    if j in roots {
      assert FillPath(h, w, cnt, before, after, roots, [j]);
    } else {
      var k :| Adjacent(h, w, j, k) && NewlyOpened(before, after, k) && cnt[k] == 0 && depth[k] < depth[j];
      RankedPath(h, w, cnt, before, after, roots, depth, k);
      var q :| FillPath(h, w, cnt, before, after, roots, q) && q[|q| - 1] == k;
      AdjacentSymmetric(h, w, j, k);
      var p := q + [j];
      assert forall m :: 0 <= m < |q| ==> p[m] == q[m];
      assert FillPath(h, w, cnt, before, after, roots, p);
    }
  }

  /** When the opened cells are reached from roots, each of them is the end
      of a fill path from a root: nothing is opened outside the zero regions
      of the roots and their borders. */
  lemma ReachedPaths(h: int, w: int, cnt: seq<int>, before: seq<int>, after: seq<int>, roots: set<int>)
    requires 0 < w && |cnt| == |before| == |after| == h * w
    requires Reached(h, w, cnt, before, after, roots)
    ensures forall j :: NewlyOpened(before, after, j) ==>
      exists p :: FillPath(h, w, cnt, before, after, roots, p) && p[|p| - 1] == j
  {
    var depth :| Ranked(h, w, cnt, before, after, roots, depth);
    forall j | NewlyOpened(before, after, j)
      ensures exists p :: FillPath(h, w, cnt, before, after, roots, p) && p[|p| - 1] == j
    {
      RankedPath(h, w, cnt, before, after, roots, depth, j);
    }
  }

  /** None of the cells js is hidden in s. */
  predicate Revealed(s: seq<int>, js: seq<int>) {
    forall j :: j in js ==> 0 <= j < |s| && s[j] != HIDDEN
  }

  /** A Grows step keeps revealed cells revealed, and one more revealed cell
      extends the list. */
  lemma RevealedStep(before: seq<int>, after: seq<int>, fs: seq<int>, t: int)
    requires Grows(before, after) && 0 <= t < |fs| && Revealed(before, fs[..t])
    requires 0 <= fs[t] < |after| && after[fs[t]] != HIDDEN
    ensures Revealed(after, fs[..t + 1])
  {
    assert fs[..t + 1] == fs[..t] + [fs[t]];
    forall j | j in fs[..t + 1] ensures 0 <= j < |after| && after[j] != HIDDEN {
      if j != fs[t] {
        assert j in fs[..t];
      }
    }
  }

  /** Once every neighbour fs of x is revealed, the fill is closed at x too. */
  lemma CloseAt(h: int, w: int, cnt: seq<int>, before: seq<int>, after: seq<int>, x: int, fs: seq<int>)
    requires 0 < w && |cnt| == |before| == |after| == h * w
    requires ClosedBut(h, w, cnt, before, after, x) && Revealed(after, fs)
    requires forall k :: Adjacent(h, w, x, k) ==> k in fs
    ensures Closed(h, w, cnt, before, after)
  {
    forall j, k | NewlyOpened(before, after, j) && j != -1 && cnt[j] == 0 && Adjacent(h, w, j, k)
      ensures after[k] != HIDDEN
    {
      if j == x {
        assert k in fs;
      }
    }
  }

  /** Facts about a Grows step: the flags stay, the opened set only gains
      (by exactly the newly opened cells) and the hidden set only loses. */
  lemma GrowsCounts(before: seq<int>, after: seq<int>)
    requires Grows(before, after)
    ensures CellsIn(after, FLAGGED) == CellsIn(before, FLAGGED)
    ensures CellsIn(before, OPENED) <= CellsIn(after, OPENED)
    ensures |CellsIn(after, OPENED)| == |CellsIn(before, OPENED)| + |CellsIn(after, OPENED) - CellsIn(before, OPENED)|
    ensures CellsIn(after, HIDDEN) <= CellsIn(before, HIDDEN)
  {
    var a, b := CellsIn(before, OPENED), CellsIn(after, OPENED);
    assert b == a + (b - a);
    assert a * (b - a) == {};
  }

  /** Once a hidden cell i is no longer hidden, fewer cells are hidden. */
  lemma GrowsFewerHidden(before: seq<int>, after: seq<int>, i: int)
    requires Grows(before, after) && 0 <= i < |before|
    requires before[i] == HIDDEN && after[i] != HIDDEN
    ensures |CellsIn(after, HIDDEN)| < |CellsIn(before, HIDDEN)|
  {
    GrowsCounts(before, after);
    var a, b := CellsIn(after, HIDDEN), CellsIn(before, HIDDEN);
    assert b == a + (b - a);
    assert a * (b - a) == {};
    assert i in b - a;
  }

  /** Setting cell i from state u to state x moves i from the u-set to the x-set. */
  lemma UpdateCells(s: seq<int>, i: int, x: int, v: int)
    requires 0 <= i < |s|
    ensures CellsIn(s[i := x], v) == (CellsIn(s, v) - {i}) + (if x == v then {i} else {})
    ensures s[i] != v && x == v ==> |CellsIn(s[i := x], v)| == |CellsIn(s, v)| + 1
    ensures s[i] == v && x != v ==> |CellsIn(s[i := x], v)| == |CellsIn(s, v)| - 1
    ensures (s[i] == v) == (x == v) ==> CellsIn(s[i := x], v) == CellsIn(s, v)
  {
    var t := s[i := x];
    assert CellsIn(t, v) == (CellsIn(s, v) - {i}) + (if x == v then {i} else {});
  }

  /** A reveal that changes nothing satisfies every reveal property trivially. */
  lemma Unchanged(h: int, w: int, cnt: seq<int>, s: seq<int>, roots: set<int>)
    requires 0 < w && |cnt| == |s| == h * w
    ensures Grows(s, s) && CellsIn(s, OPENED) - CellsIn(s, OPENED) == {}
    ensures Closed(h, w, cnt, s, s) && Reached(h, w, cnt, s, s, roots)
  {
    var zeros: seq<nat> := seq(h * w, _ => 0);
    assert Ranked(h, w, cnt, s, s, roots, zeros);
  }

  /** Opening the single hidden cell x: a Grows step that opens exactly x,
      spreads from x, and is closed unless x has count 0. */
  lemma OpenOne(h: int, w: int, cnt: seq<int>, s: seq<int>, x: int)
    requires 0 < w && |cnt| == |s| == h * w && 0 <= x < |s| && s[x] == HIDDEN
    ensures Grows(s, s[x := OPENED])
    ensures CellsIn(s[x := OPENED], OPENED) == CellsIn(s, OPENED) + {x}
    ensures CellsIn(s[x := OPENED], FLAGGED) == CellsIn(s, FLAGGED)
    ensures |CellsIn(s[x := OPENED], OPENED)| == |CellsIn(s, OPENED)| + 1
    ensures CellsIn(s[x := OPENED], OPENED) - CellsIn(s, OPENED) == {x}
    ensures ClosedBut(h, w, cnt, s, s[x := OPENED], x)
    ensures cnt[x] != 0 ==> Closed(h, w, cnt, s, s[x := OPENED])
    ensures Reached(h, w, cnt, s, s[x := OPENED], {x})
  {
    UpdateCells(s, x, OPENED, OPENED);
    UpdateCells(s, x, OPENED, FLAGGED);
    var zeros: seq<nat> := seq(h * w, _ => 0);
    assert Ranked(h, w, cnt, s, s[x := OPENED], {x}, zeros);
  }

  /** Composition of two flood-fill steps keeps the closure of the outer one. */
  lemma ClosedStep(h: int, w: int, cnt: seq<int>, entry: seq<int>, mid: seq<int>, after: seq<int>, x: int)
    requires 0 < w && |cnt| == |entry| == |mid| == |after| == h * w
    requires Grows(entry, mid) && Grows(mid, after)
    requires ClosedBut(h, w, cnt, entry, mid, x) && Closed(h, w, cnt, mid, after)
    ensures ClosedBut(h, w, cnt, entry, after, x)
  {
    forall j, k | NewlyOpened(entry, after, j) && j != x && cnt[j] == 0 && Adjacent(h, w, j, k)
      ensures after[k] != HIDDEN
    {
      if mid[j] == HIDDEN {
        assert NewlyOpened(mid, after, j);
      } else {
        assert NewlyOpened(entry, mid, j);
      }
    }
  }

  /** Composition of two flood-fill steps: the fill from the zero cell x,
      then the fill from its neighbour q, is still reached from x. */
  lemma ReachedLink(h: int, w: int, cnt: seq<int>, entry: seq<int>, mid: seq<int>, after: seq<int>, x: int, q: int)
    requires 0 < w && |cnt| == |entry| == |mid| == |after| == h * w
    requires Grows(entry, mid) && Grows(mid, after)
    requires Reached(h, w, cnt, entry, mid, {x}) && Reached(h, w, cnt, mid, after, {q})
    requires Adjacent(h, w, q, x) && NewlyOpened(entry, mid, x) && cnt[x] == 0
    ensures Reached(h, w, cnt, entry, after, {x})
  {
    var d1 :| Ranked(h, w, cnt, entry, mid, {x}, d1);
    var d2 :| Ranked(h, w, cnt, mid, after, {q}, d2);
    var d: seq<nat> := seq(h * w, j requires 0 <= j < h * w =>
      if mid[j] == HIDDEN && after[j] == OPENED then d1[x] + 1 + d2[j] else d1[j]);
    forall j | NewlyOpened(entry, after, j) && j !in {x}
      ensures exists k :: Adjacent(h, w, j, k) && NewlyOpened(entry, after, k) && cnt[k] == 0 && d[k] < d[j]
    {
      if mid[j] != HIDDEN {
        assert NewlyOpened(entry, mid, j);
        var k :| Adjacent(h, w, j, k) && NewlyOpened(entry, mid, k) && cnt[k] == 0 && d1[k] < d1[j];
        assert NewlyOpened(entry, after, k) && d[k] == d1[k] && d[j] == d1[j];
      } else if j == q {
        AdjacentSymmetric(h, w, q, x);
        assert NewlyOpened(entry, after, x) && d[x] == d1[x];
      } else {
        assert NewlyOpened(mid, after, j);
        var k :| Adjacent(h, w, j, k) && NewlyOpened(mid, after, k) && cnt[k] == 0 && d2[k] < d2[j];
        assert NewlyOpened(entry, after, k) && d[k] < d[j];
      }
    }
    assert Ranked(h, w, cnt, entry, after, {x}, d);
  }

  /** Composition of two reveals: the first reached from roots, the second
      started at one of the roots, together are still reached from roots. */
  lemma ReachedSub(h: int, w: int, cnt: seq<int>, entry: seq<int>, mid: seq<int>, after: seq<int>, roots: set<int>, q: int)
    requires 0 < w && |cnt| == |entry| == |mid| == |after| == h * w
    requires Grows(entry, mid) && Grows(mid, after)
    requires Reached(h, w, cnt, entry, mid, roots) && Reached(h, w, cnt, mid, after, {q}) && q in roots
    ensures Reached(h, w, cnt, entry, after, roots)
  {
    var d1 :| Ranked(h, w, cnt, entry, mid, roots, d1);
    var d2 :| Ranked(h, w, cnt, mid, after, {q}, d2);
    var d: seq<nat> := seq(h * w, j requires 0 <= j < h * w =>
      if mid[j] == HIDDEN && after[j] == OPENED then d2[j] else d1[j]);
    forall j | NewlyOpened(entry, after, j) && j !in roots
      ensures exists k :: Adjacent(h, w, j, k) && NewlyOpened(entry, after, k) && cnt[k] == 0 && d[k] < d[j]
    {
      if mid[j] != HIDDEN {
        assert NewlyOpened(entry, mid, j);
        var k :| Adjacent(h, w, j, k) && NewlyOpened(entry, mid, k) && cnt[k] == 0 && d1[k] < d1[j];
        assert NewlyOpened(entry, after, k) && d[k] == d1[k] && d[j] == d1[j];
      } else {
        assert NewlyOpened(mid, after, j);
        var k :| Adjacent(h, w, j, k) && NewlyOpened(mid, after, k) && cnt[k] == 0 && d2[k] < d2[j];
        assert NewlyOpened(entry, after, k) && d[k] < d[j];
      }
    }
    assert Ranked(h, w, cnt, entry, after, roots, d);
  }

  /** A duplicate-free sequence has as many distinct elements as positions. */
  lemma {:induction false} DistinctCard(s: seq<int>)
    requires Distinct(s)
    ensures |set x | x in s| == |s|
  {
    if s != [] {
      var p := s[..|s| - 1];
      assert Distinct(p);
      DistinctCard(p);
      assert s == p + [s[|s| - 1]];
      assert (set x | x in s) == (set x | x in p) + {s[|s| - 1]};
      assert s[|s| - 1] !in p by {
        forall k | 0 <= k < |p| ensures p[k] != s[|s| - 1] {
          assert p[k] == s[k];
        }
      }
    }
  }

  /** The flat indices 0, ..., n-1 in order. */
  function Iota(n: nat): seq<int> {
    seq(n, k => k)
  }

  /** Every cell of a board of n cells: exactly the indices 0..n-1, n of them. */
  lemma AllCells(n: nat)
    ensures forall i :: i in Iota(n) <==> 0 <= i < n
    ensures |set i | i in Iota(n)| == n
  {
    var s := Iota(n);
    forall i | 0 <= i < n ensures i in s {
      assert s[i] == i;
    }
    DistinctCard(s);
  }

  /** With no mine opened, the opened cells and the mines together are at
      most all cells, and fill the board exactly when every non-mine cell is opened. */
  lemma OpenedBound(s: seq<int>, mines: seq<int>)
    requires Distinct(mines) && forall k :: 0 <= k < |mines| ==> 0 <= mines[k] < |s|
    requires forall i :: 0 <= i < |s| && s[i] == OPENED ==> i !in mines
    ensures |CellsIn(s, OPENED)| + |mines| <= |s|
    ensures |CellsIn(s, OPENED)| + |mines| == |s| <==>
      forall i :: 0 <= i < |s| && i !in mines ==> s[i] == OPENED
  {
    var all := set i | i in Iota(|s|);
    var m := set x | x in mines;
    var o := CellsIn(s, OPENED);
    AllCells(|s|);
    DistinctCard(mines);
    var safe := all - m;
    SubsetCard(m, all);
    assert o <= safe;
    SubsetCard(o, safe);
    if |o| + |mines| == |s| {
      assert safe - o == {};
      forall i | 0 <= i < |s| && i !in mines ensures s[i] == OPENED {
        assert i in safe;
      }
    }
    if forall i :: 0 <= i < |s| && i !in mines ==> s[i] == OPENED {
      assert safe == o;
    }
  }

  lemma SubsetCard(a: set<int>, b: set<int>)
    requires a <= b
    ensures |b - a| == |b| - |a|
  {
    assert b == a + (b - a);
    assert a * (b - a) == {};
  }
}

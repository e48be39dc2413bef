/** Mine placement (the rejection loop of generateMineMap) and the adjacency
    counts of generateMineCntMap / incrementMineCnt. */
module Mines {
  import opened Grid

  datatype Option<T> = None | Some(value: T)

  /** How many mines the do-while loop places: it runs its body once before
      testing `i < numMines`, so a count below 1 still places one mine. */
  function MineTotal(numMines: int): int {
    if numMines < 1 then 1 else numMines
  }

  /** A mine list as generateMineMap leaves it: MineTotal(numMines) distinct
      flat indices, each a cell of a board of numCells cells. */
  predicate ValidMines(numCells: int, numMines: int, mines: seq<int>) {
    |mines| == MineTotal(numMines) && Distinct(mines) &&
    forall k :: 0 <= k < |mines| ==> 0 <= mines[k] < numCells
  }

  /** The values `Math.floor(Math.random() * numCells)` can take: [0, numCells)
      for a positive cell count, and [numCells, 0] for a cell count of 0 or
      less (only 0 when the count is 0). */
  predicate InDrawRange(numCells: int, d: int) {
    if numCells > 0 then 0 <= d < numCells else numCells <= d <= 0
  }

  /** The draws with repeats rejected: each draw is kept when it is not already
      among the kept ones, as `mineIdxArray.includes` tests. */
  function Dedup(s: seq<int>): seq<int> {
    if s == [] then []
    else
      var kept := Dedup(s[..|s| - 1]);
      if s[|s| - 1] in kept then kept else kept + [s[|s| - 1]]
  }

  /** The kept draws are duplicate-free and are exactly the values drawn. */
  lemma {:induction false} DedupSpec(s: seq<int>)
    ensures Distinct(Dedup(s))
    ensures forall x :: x in Dedup(s) <==> x in s
  {
    if s != [] {
      var p, x := s[..|s| - 1], s[|s| - 1];
      DedupSpec(p);
      assert s == p + [x];
      var kept := Dedup(p);
      if x !in kept {
        forall i | 0 <= i < |kept| ensures (kept + [x])[i] != x {
          assert (kept + [x])[i] == kept[i];
        }
      }
    }
  }

  /** Dedup of a prefix of the draws is a prefix of Dedup of all of them. */
  lemma {:induction false} DedupPrefix(s: seq<int>, k: nat)
    requires k <= |s|
    ensures Dedup(s[..k]) <= Dedup(s)
  {
    if k < |s| {
      var p := s[..|s| - 1];
      DedupPrefix(p, k);
      assert p[..k] == s[..k];
      assert Dedup(p) <= Dedup(s);
    } else {
      assert s[..k] == s;
    }
  }

  /** The rejection loop of generateMineMap run over a supplied sequence of
      draws (each already a value of `Math.floor(Math.random() * numCells)`).
      It fails only when the draws run out before enough distinct indices
      came up. */
  method GenerateMineIdx(numCells: int, numMines: int, draws: seq<int>) returns (r: Option<seq<int>>)
    requires forall k :: 0 <= k < |draws| ==> InDrawRange(numCells, draws[k])
    ensures r.Some? <==> |Dedup(draws)| >= MineTotal(numMines)
    ensures r.Some? ==> r.value == Dedup(draws)[..MineTotal(numMines)]
    ensures r.Some? ==> |r.value| == MineTotal(numMines) && Distinct(r.value)
    ensures r.Some? ==> forall k :: 0 <= k < |r.value| ==> InDrawRange(numCells, r.value[k])
    ensures r.Some? && numCells > 0 ==> ValidMines(numCells, numMines, r.value)
  {
    var mineIdxArray: seq<int> := [];
    var i := 0;
    var k := 0;
    while true
      invariant 0 <= k <= |draws|
      invariant mineIdxArray == Dedup(draws[..k]) && i == |mineIdxArray|
      invariant i < MineTotal(numMines)
      invariant k > 0 ==> i < numMines
      decreases |draws| - k
    {
      if k == |draws| {
        assert draws[..k] == draws;
        return None;
      }
      var mineIdx := draws[k];
      DedupStep(draws, k);
      k := k + 1;
      if mineIdx !in mineIdxArray {
        mineIdxArray := mineIdxArray + [mineIdx];
        i := i + 1;
      }
      if !(i < numMines) {
        break;
      }
    }
    DedupChosen(draws, k, numCells);
    r := Some(mineIdxArray);
  }

  /** One more draw: it is kept exactly when it is new. */
  lemma DedupStep(s: seq<int>, k: int)
    requires 0 <= k < |s|
    ensures Dedup(s[..k + 1]) == if s[k] in Dedup(s[..k]) then Dedup(s[..k]) else Dedup(s[..k]) + [s[k]]
  {
    assert s[..k + 1][..k] == s[..k];
  }

  /** The indices kept from the first k draws are the first ones kept from
      all draws, duplicate-free and within the drawn range. */
  lemma DedupChosen(s: seq<int>, k: int, n: int)
    requires 0 <= k <= |s| && forall j :: 0 <= j < |s| ==> InDrawRange(n, s[j])
    ensures Dedup(s[..k]) <= Dedup(s)
    ensures Dedup(s[..k]) == Dedup(s)[..|Dedup(s[..k])|]
    ensures Distinct(Dedup(s[..k]))
    ensures forall j :: 0 <= j < |Dedup(s[..k])| ==> InDrawRange(n, Dedup(s[..k])[j])
  {
    var sk := s[..k];
    DedupPrefix(s, k);
    DedupSpec(sk);
    forall j | 0 <= j < |Dedup(sk)| ensures InDrawRange(n, Dedup(sk)[j]) {
      var x := Dedup(sk)[j];
      assert x in Dedup(sk);
      assert x in sk;
      var d :| 0 <= d < k && sk[d] == x;
      assert s[d] == sk[d];
      assert InDrawRange(n, s[d]);
    }
  }

  /** The number of mines among the in-bounds neighbours of flat cell i. */
  function AdjacentMines(h: int, w: int, mines: seq<int>, i: int): int
    requires 0 < w
  {
    CountIn(NeighbourIdx(h, w, i), mines)
  }

  /** The adjacency count is the number of mine cells adjacent to i, so 0..8. */
  lemma AdjacentMinesSpec(h: int, w: int, mines: seq<int>, i: int)
    requires 0 < w && 0 <= i < h * w
    ensures 0 <= AdjacentMines(h, w, mines, i) <= 8
    ensures AdjacentMines(h, w, mines, i) == |set j | j in mines && Adjacent(h, w, i, j)|
  {
    NeighbourIdxSpec(h, w, i);
    CountFilter(NeighbourIdx(h, w, i), mines, set j | j in mines && Adjacent(h, w, i, j));
  }

  /** Counting the elements of a duplicate-free ns that occur in t gives the
      size of any set holding exactly those elements. */
  lemma CountFilter(ns: seq<int>, t: seq<int>, a: set<int>)
    requires Distinct(ns) && forall j :: j in a <==> j in ns && j in t
    ensures CountIn(ns, t) == |a|
  {
    CountInSet(ns, t);
    var b := set x | x in ns && x in t;
    forall x ensures x in a <==> x in b {
      assert x in b <==> x in ns && x in t;
    }
    assert a == b;
  }

  /** The neighbours of a cell with adjacency count 0: on the board, no mine
      among them, and every adjacent cell is one of them. */
  lemma ZeroCellNeighbours(h: int, w: int, mines: seq<int>, i: int)
    requires 0 < w && 0 <= i < h * w && AdjacentMines(h, w, mines, i) == 0
    ensures forall s :: 0 <= s < |NeighbourIdx(h, w, i)| ==>
      0 <= NeighbourIdx(h, w, i)[s] < h * w && NeighbourIdx(h, w, i)[s] !in mines &&
      Adjacent(h, w, i, NeighbourIdx(h, w, i)[s])
    ensures forall k :: Adjacent(h, w, i, k) ==> k in NeighbourIdx(h, w, i)
  {
    var fs := NeighbourIdx(h, w, i);
    NeighbourIdxSpec(h, w, i);
    CountInZero(fs, mines);
    forall s | 0 <= s < |fs|
      ensures 0 <= fs[s] < h * w && fs[s] !in mines && Adjacent(h, w, i, fs[s])
    {
      assert fs[s] in fs;
    }
  }

  /** The cells of L that are mines, in order: what quickOpenSetup pushes
      onto mines over the neighbours L. */
  function MinesAmong(mines: seq<int>, w: int, L: seq<(int, int)>): (k: seq<(int, int)>)
    ensures |k| <= |L|
  {
    if L == [] then []
    else MinesAmong(mines, w, L[..|L| - 1]) + (if Flat(w, L[|L| - 1].0, L[|L| - 1].1) in mines then [L[|L| - 1]] else [])
  }

  /** MinesAmong keeps exactly the mine cells of L. */
  lemma {:induction false} MinesAmongMembers(mines: seq<int>, w: int, L: seq<(int, int)>)
    ensures forall q :: q in MinesAmong(mines, w, L) <==> q in L && Flat(w, q.0, q.1) in mines
  {
    if L != [] {
      var p := L[..|L| - 1];
      MinesAmongMembers(mines, w, p);
      assert L == p + [L[|L| - 1]];
    }
  }

  lemma MinesAmongSnoc(mines: seq<int>, w: int, L: seq<(int, int)>, t: int)
    requires 0 <= t < |L|
    ensures MinesAmong(mines, w, L[..t + 1])
         == MinesAmong(mines, w, L[..t]) + (if Flat(w, L[t].0, L[t].1) in mines then [L[t]] else [])
  {
    assert L[..t + 1][..t] == L[..t];
  }

  /** The cells of L that are not mines, in order: the flags quickOpen
      marks wrong after a loss. */
  function NonMinesAmong(mines: seq<int>, w: int, L: seq<(int, int)>): (k: seq<(int, int)>)
    ensures |k| <= |L|
  {
    if L == [] then []
    else (if Flat(w, L[0].0, L[0].1) !in mines then [L[0]] else []) + NonMinesAmong(mines, w, L[1..])
  }

  /** NonMinesAmong keeps exactly the cells of L that are not mines. */
  lemma {:induction false} NonMinesAmongMembers(mines: seq<int>, w: int, L: seq<(int, int)>)
    ensures forall q :: q in NonMinesAmong(mines, w, L) <==> q in L && Flat(w, q.0, q.1) !in mines
  {
    if L != [] {
      NonMinesAmongMembers(mines, w, L[1..]);
      assert L == [L[0]] + L[1..];
    }
  }

  /** Counting the mines of a cell list is counting its flat indices that are mines. */
  lemma {:induction false} MinesAmongCount(mines: seq<int>, w: int, L: seq<(int, int)>)
    ensures |MinesAmong(mines, w, L)| == CountIn(MapFlat(w, L), mines)
  {
    if L != [] {
      var p := L[..|L| - 1];
      MinesAmongCount(mines, w, p);
      assert MapFlat(w, L)[..|L| - 1] == MapFlat(w, p);
    }
  }

  /** The mines quickOpen collects around (r, c) are as many as the
      adjacency count of (r, c): the number its cell displays. */
  lemma NeighbourMinesCount(h: int, w: int, mines: seq<int>, r: int, c: int)
    requires InGrid(h, w, r, c)
    ensures |MinesAmong(mines, w, Neighbours(h, w, r, c))| == AdjacentMines(h, w, mines, Flat(w, r, c))
  {
    FlatRowCol(w, r, c);
    MinesAmongCount(mines, w, Neighbours(h, w, r, c));
  }

  /** incrementMineCnt: one more adjacent mine for cell (r, c). */
  method IncrementMineCnt(mineCntMap: array<int>, w: int, r: int, c: int)
    requires 0 <= Flat(w, r, c) < mineCntMap.Length
    modifies mineCntMap
    ensures mineCntMap[..] == old(mineCntMap[..])[Flat(w, r, c) := old(mineCntMap[Flat(w, r, c)]) + 1]
  {
    mineCntMap[Flat(w, r, c)] := mineCntMap[Flat(w, r, c)] + 1;
  }

  /** handleAdjacentCells(incrementMineCnt, [r, c]) for the mine at flat
      index m: every cell adjacent to m gains one, no other cell changes. */
  method IncrementNeighbours(mineCntMap: array<int>, h: int, w: int, m: int)
    requires 0 < w && 0 <= m < h * w && mineCntMap.Length == h * w
    modifies mineCntMap
    ensures forall p :: 0 <= p < h * w ==>
      mineCntMap[p] == old(mineCntMap[p]) + (if Adjacent(h, w, m, p) then 1 else 0)
  {
    NeighbourIdxCells(h, w, m);
    IncrementEach(mineCntMap, w, Neighbours(h, w, m / w, m % w), NeighbourIdx(h, w, m));
    NeighbourIdxSpec(h, w, m);
  }

  /** The callback loop of handleAdjacentCells with incrementMineCnt: one
      more for each listed cell, whose flat indices fs are all different. */
  method IncrementEach(mineCntMap: array<int>, w: int, ns: seq<(int, int)>, ghost fs: seq<int>)
    requires |fs| == |ns| && Distinct(fs)
    requires forall k :: 0 <= k < |ns| ==> fs[k] == Flat(w, ns[k].0, ns[k].1) && 0 <= fs[k] < mineCntMap.Length
    modifies mineCntMap
    ensures forall p :: 0 <= p < mineCntMap.Length ==>
      mineCntMap[p] == old(mineCntMap[p]) + (if p in fs then 1 else 0)
  {
    var t := 0;
    while t < |ns|
      invariant 0 <= t <= |ns|
      invariant forall p :: 0 <= p < mineCntMap.Length ==>
        mineCntMap[p] == old(mineCntMap[p]) + (if p in fs[..t] then 1 else 0)
    {
      TakeOneMore(fs, t);
      DistinctNotInPrefix(fs, t);
      IncrementMineCnt(mineCntMap, w, ns[t].0, ns[t].1);
      t := t + 1;
    }
    assert fs[..t] == fs;
  }

  /** Adding one more mine m to the list raises the count of a cell p by one
      exactly when m is adjacent to p. */
  lemma CountMoreMines(h: int, w: int, mines: seq<int>, k: nat, p: int)
    requires 0 < w && k < |mines| && 0 <= p < h * w
    ensures CountIn(mines[..k + 1], NeighbourIdx(h, w, p))
         == CountIn(mines[..k], NeighbourIdx(h, w, p)) + (if Adjacent(h, w, mines[k], p) then 1 else 0)
  {
    assert mines[..k + 1][..k] == mines[..k];
    NeighbourIdxSpec(h, w, p);
    AdjacentSymmetric(h, w, p, mines[k]);
  }

  /** generateMineCntMap: start from zeros and, for every mine, increment the
      count of each of its neighbours. Every cell ends up holding the number
      of mines adjacent to it. */
  method GenerateMineCntMap(h: int, w: int, mines: seq<int>) returns (mineCntMap: array<int>)
    requires 0 < h && 0 < w
    requires Distinct(mines) && forall k :: 0 <= k < |mines| ==> 0 <= mines[k] < h * w
    ensures fresh(mineCntMap) && mineCntMap.Length == h * w
    ensures forall i :: 0 <= i < h * w ==> mineCntMap[i] == AdjacentMines(h, w, mines, i)
  {
    var n := h * w;
    var zeros := Filled(n, 0);
    mineCntMap := new int[n](i requires 0 <= i < n => zeros[i]);
    var k := 0;
    while k < |mines|
      invariant 0 <= k <= |mines|
      invariant forall p :: 0 <= p < n ==> mineCntMap[p] == CountIn(mines[..k], NeighbourIdx(h, w, p))
    {
      IncrementNeighbours(mineCntMap, h, w, mines[k]);
      forall p | 0 <= p < n
        ensures mineCntMap[p] == CountIn(mines[..k + 1], NeighbourIdx(h, w, p))
      {
        CountMoreMines(h, w, mines, k, p);
      }
      k := k + 1;
    }
    assert mines[..k] == mines;
    forall p | 0 <= p < n ensures mineCntMap[p] == AdjacentMines(h, w, mines, p) {
      var fs := NeighbourIdx(h, w, p);
      NeighbourIdxSpec(h, w, p);
      CountInSet(mines, fs);
      CountInSet(fs, mines);
      assert (set x | x in mines && x in fs) == (set x | x in fs && x in mines);
    }
  }

  /** With a single mine m, a cell shows 1 exactly when m is adjacent to it. */
  lemma SingleMineCount(h: int, w: int, m: int, i: int)
    requires 0 < w && 0 <= i < h * w
    ensures AdjacentMines(h, w, [m], i) == if Adjacent(h, w, i, m) then 1 else 0
  {
    AdjacentMinesSpec(h, w, [m], i);
    var a := set j | j in [m] && Adjacent(h, w, i, j);
    if Adjacent(h, w, i, m) {
      assert a == {m};
    } else {
      assert a == {};
    }
  }

  /** A 1-by-2 board with its mine at index 0: the other cell shows 1. */
  lemma OneByTwoCount()
    ensures AdjacentMines(1, 2, [0], 1) == 1
  {
    SingleMineCount(1, 2, 0, 1);
  }

  /** A 3-by-3 board with its one mine in the centre: every other cell shows 1. */
  lemma CentreMineCounts(i: int)
    requires 0 <= i < 9 && i != 4
    ensures AdjacentMines(3, 3, [4], i) == 1
  {
    SingleMineCount(3, 3, 4, i);
  }
}

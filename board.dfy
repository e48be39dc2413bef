/** The board-state engine of js/app.js: the globals it mutates become the
    fields of one Board object, and the functions acting on them its methods. */
module Engine {
  import opened Grid
  import opened Mines
  import opened Cells

  /** gameResult values: 0 playing, 1 lost, 2 won. */
  const PLAYING := 0
  const LOSE := 1
  const WIN := 2

  /** The win test `numMines + procCnt === height * width` on a board whose
      opened cells hold no mine: it holds exactly when the mine count is at
      least 1 and every cell without a mine is opened. With a mine count
      below 1 the one mine the placement loop still places keeps it false. */
  lemma WinCondition(s: seq<int>, mineIdxArray: seq<int>, numMines: int)
    requires ValidMines(|s|, numMines, mineIdxArray)
    requires forall i :: 0 <= i < |s| && s[i] == OPENED ==> i !in mineIdxArray
    ensures numMines + |CellsIn(s, OPENED)| == |s| <==>
      numMines >= 1 && forall i :: 0 <= i < |s| && i !in mineIdxArray ==> s[i] == OPENED
  {
    OpenedBound(s, mineIdxArray);
  }

  class Board {
    const height: int
    const width: int
    const numMines: int
    /** Flat indices (row * width + column) of the mines. */
    const mineIdxArray: seq<int>
    /** Cell states, row-major: HIDDEN, OPENED or FLAGGED. */
    const mineMap: array<int>
    /** Adjacent-mine counts, row-major. */
    const mineCntMap: array<int>
    var flagCnt: int
    var procCnt: int
    var gameResult: int
    /** Scratch lists filled by quickOpenSetup and consumed by quickOpen. */
    var mines: seq<(int, int)>
    var unopened: seq<(int, int)>
    var flagged: seq<(int, int)>

    /** The board invariant: the adjacency counts are right, no opened cell
        is a mine, and the counters equal the number of cells in each state. */
    ghost predicate Valid()
      reads this`flagCnt, this`procCnt, this`gameResult, mineMap, mineCntMap
    {
      0 < height && 0 < width && numMines <= height * width &&
      mineMap.Length == height * width && mineCntMap.Length == height * width &&
      mineMap != mineCntMap &&
      ValidMines(height * width, numMines, mineIdxArray) &&
      (forall i {:trigger AdjacentMines(height, width, mineIdxArray, i)} :: 0 <= i < mineCntMap.Length ==> mineCntMap[i] == AdjacentMines(height, width, mineIdxArray, i)) &&
      CellsOk(mineMap[..], mineIdxArray, procCnt, flagCnt) &&
      PLAYING <= gameResult <= WIN
    }

    /** generateMineMap after its mine loop: every cell hidden, the counts
        derived from the given mines, and all counters reset. */
    constructor (h: int, w: int, numMines: int, mineIdxArray: seq<int>)
      requires 0 < h && 0 < w && numMines <= h * w
      requires ValidMines(h * w, numMines, mineIdxArray)
      ensures Valid() && fresh(mineMap) && fresh(mineCntMap)
      ensures height == h && width == w && this.numMines == numMines && this.mineIdxArray == mineIdxArray
      ensures mineMap[..] == Filled(h * w, HIDDEN)
      ensures flagCnt == 0 && procCnt == 0 && gameResult == PLAYING
      ensures mines == [] && unopened == [] && flagged == []
    {
      var n := h * w;
      height, width := h, w;
      this.numMines := numMines;
      this.mineIdxArray := mineIdxArray;
      var minusOnes := Filled(n, HIDDEN);
      mineMap := new int[n](i requires 0 <= i < n => minusOnes[i]);
      var counts := GenerateMineCntMap(h, w, mineIdxArray);
      mineCntMap := counts;
      flagCnt, procCnt, gameResult := 0, 0, PLAYING;
      mines, unopened, flagged := [], [], [];
      new;
      assert mineMap[..] == minusOnes;
      assert CellsIn(mineMap[..], OPENED) == {};
      assert CellsIn(mineMap[..], FLAGGED) == {};
    }

    /** Flat index of an on-board cell. */
    function Idx(r: int, c: int): (i: int)
      requires 0 < width && InGrid(height, width, r, c)
      ensures 0 <= i < height * width && i == Flat(width, r, c)
      ensures i / width == r && i % width == c
    {
      FlatBounds(height, width, r, c);
      FlatRowCol(width, r, c);
      Flat(width, r, c)
    }

    /** `mineIdxArray.includes(r * width + c)`. */
    predicate IsMine(r: int, c: int) {
      Flat(width, r, c) in mineIdxArray
    }

    /** cellClicked: the cell has been opened or flagged. */
    function CellClicked(r: int, c: int): (clicked: bool)
      requires Valid() && InGrid(height, width, r, c)
      reads this`flagCnt, this`procCnt, this`gameResult, mineMap, mineCntMap
      ensures clicked <==> Idx(r, c) in CellsIn(mineMap[..], OPENED) + CellsIn(mineMap[..], FLAGGED)
    {
      mineMap[Idx(r, c)] != HIDDEN
    }

    /** cellOpened: the cell has been opened. */
    function CellOpened(r: int, c: int): (isOpen: bool)
      requires Valid() && InGrid(height, width, r, c)
      reads this`flagCnt, this`procCnt, this`gameResult, mineMap, mineCntMap
      ensures isOpen <==> Idx(r, c) in CellsIn(mineMap[..], OPENED)
    {
      mineMap[Idx(r, c)] == OPENED
    }

    /** mineCntTest: reveal (r, c). A cell already opened or flagged is left
        alone; a mine loses the game without opening anything; any other
        cell is opened, and when it has no adjacent mine the reveal is
        applied to each of its neighbours in turn (the flood fill). */
    method MineCntTest(r: int, c: int)
      requires Valid() && InGrid(height, width, r, c)
      modifies mineMap, this`procCnt, this`gameResult
      ensures Valid()
      ensures Grows(old(mineMap[..]), mineMap[..])
      ensures procCnt == old(procCnt) + |CellsIn(mineMap[..], OPENED) - CellsIn(old(mineMap[..]), OPENED)|
      ensures old(mineMap[Idx(r, c)]) != HIDDEN ==>
        mineMap[..] == old(mineMap[..]) && procCnt == old(procCnt) && gameResult == old(gameResult)
      ensures old(mineMap[Idx(r, c)]) == HIDDEN && IsMine(r, c) ==>
        mineMap[..] == old(mineMap[..]) && procCnt == old(procCnt) && gameResult == LOSE
      ensures old(mineMap[Idx(r, c)]) == HIDDEN && !IsMine(r, c) ==>
        mineMap[Idx(r, c)] == OPENED && gameResult == old(gameResult)
      ensures old(mineMap[Idx(r, c)]) == HIDDEN && !IsMine(r, c) && mineCntMap[Idx(r, c)] > 0 ==>
        mineMap[..] == old(mineMap[..])[Idx(r, c) := OPENED]
      ensures Closed(height, width, mineCntMap[..], old(mineMap[..]), mineMap[..])
      ensures Reached(height, width, mineCntMap[..], old(mineMap[..]), mineMap[..], {Idx(r, c)})
      decreases |CellsIn(mineMap[..], HIDDEN)|, 3
    {
      var i := Idx(r, c);
      ghost var entry := mineMap[..];
      if mineMap[i] != HIDDEN {
        // cellClicked: nothing to do
        Unchanged(height, width, mineCntMap[..], entry, {i});
      } else if IsMine(r, c) {
        gameResult := LOSE;
        Unchanged(height, width, mineCntMap[..], entry, {i});
      } else {
        var mineCnt := mineCntMap[i];
        Open(i);
        OpenOne(height, width, mineCntMap[..], entry, i);
        if mineCnt == 0 {
          OpenAround(r, c, entry);
          GrowsCounts(entry, mineMap[..]);
        }
      }
    }

    /** Open the hidden non-mine cell i: `mineMap[h][w] = 0; procCnt++`. */
    method Open(i: int)
      requires Valid() && 0 <= i < mineMap.Length && mineMap[i] == HIDDEN && i !in mineIdxArray
      modifies mineMap, this`procCnt
      ensures Valid()
      ensures mineMap[..] == old(mineMap[..])[i := OPENED] && procCnt == old(procCnt) + 1
    {
      ghost var s := mineMap[..];
      mineMap[i] := OPENED;
      procCnt := procCnt + 1;
      assert mineMap[..] == s[i := OPENED];
      OpenKeeps(s, mineIdxArray, old(procCnt), flagCnt, i);
    }

    /** The state of the flood fill from the zero cell i after its first t
        neighbours fs[..t] were revealed. */
    ghost predicate FillSoFar(i: int, entry: seq<int>, fs: seq<int>, t: int)
      requires Valid() && |entry| == mineMap.Length && 0 <= t <= |fs|
      reads this`flagCnt, this`procCnt, this`gameResult, mineMap, mineCntMap
    {
      Revealed(mineMap[..], fs[..t]) &&
      ClosedBut(height, width, mineCntMap[..], entry, mineMap[..], i) &&
      Reached(height, width, mineCntMap[..], entry, mineMap[..], {i})
    }

    /** One step of handleAdjacentCells(mineCntTest, ...) around the zero
        cell i: mineCntTest on its neighbour (r, c), the t-th in call order. */
    method RevealNeighbour(r: int, c: int, i: int, ghost entry: seq<int>, ghost fs: seq<int>, ghost t: int)
      requires Valid() && |entry| == mineMap.Length && 0 <= i < mineMap.Length
      requires 0 <= t < |fs|
      requires forall s :: 0 <= s < |fs| ==> 0 <= fs[s] < mineMap.Length && fs[s] !in mineIdxArray && Adjacent(height, width, i, fs[s])
      requires InGrid(height, width, r, c) && fs[t] == Flat(width, r, c)
      requires entry[i] == HIDDEN && mineCntMap[i] == 0
      requires Grows(entry, mineMap[..]) && mineMap[i] == OPENED
      requires FillSoFar(i, entry, fs, t)
      modifies mineMap, this`procCnt, this`gameResult
      ensures Valid() && gameResult == old(gameResult)
      ensures Grows(entry, mineMap[..]) && mineMap[i] == OPENED
      ensures FillSoFar(i, entry, fs, t + 1)
      decreases |CellsIn(entry, HIDDEN)|, 0
    {
      ghost var cnt := mineCntMap[..];
      ghost var mid := mineMap[..];
      GrowsFewerHidden(entry, mid, i);
      assert fs[t] in fs;
      assert Idx(r, c) == fs[t] && !IsMine(r, c);
      MineCntTest(r, c);
      RevealedStep(mid, mineMap[..], fs, t);
      ClosedStep(height, width, cnt, entry, mid, mineMap[..], i);
      AdjacentSymmetric(height, width, i, fs[t]);
      assert NewlyOpened(entry, mid, i);
      ReachedLink(height, width, cnt, entry, mid, mineMap[..], i, fs[t]);
    }

    /** The flood-fill branch of mineCntTest for the zero cell (r, c) just
        opened, which was hidden in entry: handleAdjacentCells(mineCntTest, [r, c]). */
    method OpenAround(r: int, c: int, ghost entry: seq<int>)
      requires Valid() && InGrid(height, width, r, c)
      requires |entry| == mineMap.Length && entry[Idx(r, c)] == HIDDEN && mineMap[..] == entry[Idx(r, c) := OPENED]
      requires mineCntMap[Idx(r, c)] == 0
      modifies mineMap, this`procCnt, this`gameResult
      ensures Valid()
      ensures Grows(entry, mineMap[..]) && mineMap[Idx(r, c)] == OPENED && gameResult == old(gameResult)
      ensures Closed(height, width, mineCntMap[..], entry, mineMap[..])
      ensures Reached(height, width, mineCntMap[..], entry, mineMap[..], {Idx(r, c)})
      decreases |CellsIn(entry, HIDDEN)|, 2
    {
      var i := Idx(r, c);
      var ns := Neighbours(height, width, r, c);
      ghost var fs := NeighbourIdx(height, width, i);
      NeighboursSpec(height, width, r, c);
      ZeroCellNeighbours(height, width, mineIdxArray, i);
      FillAround(i, ns, fs, entry);
    }

    /** The loop of handleAdjacentCells(mineCntTest, ...) around the zero
        cell i, given its neighbours ns in call order and their flat
        indices fs. */
    method FillAround(i: int, ns: seq<(int, int)>, ghost fs: seq<int>, ghost entry: seq<int>)
      requires Valid() && |entry| == mineMap.Length && 0 <= i < mineMap.Length
      requires entry[i] == HIDDEN && mineCntMap[i] == 0 && mineMap[..] == entry[i := OPENED]
      requires |fs| == |ns|
      requires forall t :: 0 <= t < |ns| ==> InGrid(height, width, ns[t].0, ns[t].1) && fs[t] == Flat(width, ns[t].0, ns[t].1)
      requires forall s :: 0 <= s < |fs| ==> 0 <= fs[s] < mineMap.Length && fs[s] !in mineIdxArray && Adjacent(height, width, i, fs[s])
      requires forall k :: Adjacent(height, width, i, k) ==> k in fs
      modifies mineMap, this`procCnt, this`gameResult
      ensures Valid()
      ensures Grows(entry, mineMap[..]) && mineMap[i] == OPENED && gameResult == old(gameResult)
      ensures Closed(height, width, mineCntMap[..], entry, mineMap[..])
      ensures Reached(height, width, mineCntMap[..], entry, mineMap[..], {i})
      decreases |CellsIn(entry, HIDDEN)|, 1
    {
      ghost var cnt := mineCntMap[..];
      OpenOne(height, width, cnt, entry, i);
      var t := 0;
      while t < |ns|
        invariant 0 <= t <= |ns|
        invariant Valid() && gameResult == old(gameResult)
        invariant Grows(entry, mineMap[..]) && mineMap[i] == OPENED
        invariant FillSoFar(i, entry, fs, t)
      {
        var q := ns[t];
        RevealNeighbour(q.0, q.1, i, entry, fs, t);
        t := t + 1;
      }
      assert fs[..t] == fs;
      CloseAt(height, width, cnt, entry, mineMap[..], i, fs);
    }

    /** checkWiningCondition: the game is won when the opened cells and the
        mines make up the whole board, which (for a mine count of at least 1)
        is when every cell without a mine has been opened. */
    method CheckWinningCondition()
      requires Valid()
      modifies this`gameResult
      ensures Valid()
      ensures numMines + procCnt == height * width ==> gameResult == WIN
      ensures numMines + procCnt != height * width ==> gameResult == old(gameResult)
      ensures numMines + procCnt == height * width <==> numMines >= 1 && AllSafeOpened()
    {
      WinCondition(mineMap[..], mineIdxArray, numMines);
      if numMines + procCnt == height * width {
        gameResult := WIN;
      }
    }

    /** Every cell without a mine is opened. */
    ghost predicate AllSafeOpened()
      reads mineMap
    {
      forall i :: 0 <= i < mineMap.Length && i !in mineIdxArray ==> mineMap[i] == OPENED
    }

    /** The flag toggle of the right-click branch of mouseUpHandler: a hidden
        cell becomes flagged, a flagged cell hidden again, an opened cell stays. */
    method ToggleFlag(r: int, c: int)
      requires Valid() && InGrid(height, width, r, c)
      modifies mineMap, this`flagCnt
      ensures Valid()
      ensures mineMap[..] == old(mineMap[..])[Idx(r, c) := Toggled(old(mineMap[Idx(r, c)]))]
      ensures old(mineMap[Idx(r, c)]) == HIDDEN ==> flagCnt == old(flagCnt) + 1
      ensures old(mineMap[Idx(r, c)]) == FLAGGED ==> flagCnt == old(flagCnt) - 1
      ensures old(mineMap[Idx(r, c)]) == OPENED ==> flagCnt == old(flagCnt)
    {
      var i := Idx(r, c);
      ghost var s := mineMap[..];
      if !CellClicked(r, c) {
        mineMap[i] := FLAGGED;
        flagCnt := flagCnt + 1;
      } else if mineMap[i] == FLAGGED {
        mineMap[i] := HIDDEN;
        flagCnt := flagCnt - 1;
      }
      assert mineMap[..] == s[i := Toggled(s[i])];
      ToggleKeeps(s, mineIdxArray, procCnt, old(flagCnt), i);
    }

    /** The neighbours of (r, c) that are in state v in s, in call order. */
    ghost function AroundIn(s: seq<int>, r: int, c: int, v: int): seq<(int, int)> {
      WithState(s, width, Neighbours(height, width, r, c), v)
    }

    /** The neighbours of (r, c) that are mines, whatever their state. */
    function MinesAround(r: int, c: int): seq<(int, int)> {
      MinesAmong(mineIdxArray, width, Neighbours(height, width, r, c))
    }

    /** The chord reveals only when some neighbour is flagged and the flags
        are exactly as many as the mines around. */
    predicate ChordGate(flags: seq<(int, int)>, mineCells: seq<(int, int)>) {
      |flags| > 0 && |flags| == |mineCells|
    }

    /** The flat indices of a list of cells. */
    function Roots(u: seq<(int, int)>): set<int> {
      set q | q in u :: Flat(width, q.0, q.1)
    }

    /** quickOpenSetup for one neighbour (r, c): record it as a mine, and as
        unopened or as flagged. */
    method QuickOpenSetup(r: int, c: int)
      requires mineMap.Length == height * width && InGrid(height, width, r, c)
      modifies this`mines, this`unopened, this`flagged
      ensures mines == old(mines) + (if IsMine(r, c) then [(r, c)] else [])
      ensures unopened == old(unopened) + (if StateIs(mineMap[..], width, (r, c), HIDDEN) then [(r, c)] else [])
      ensures flagged == old(flagged) + (if StateIs(mineMap[..], width, (r, c), FLAGGED) then [(r, c)] else [])
    {
      var i := Idx(r, c);
      if IsMine(r, c) {
        mines := mines + [(r, c)];
      }
      if mineMap[i] == HIDDEN {
        unopened := unopened + [(r, c)];
      } else if mineMap[i] == FLAGGED {
        flagged := flagged + [(r, c)];
      }
    }

    /** handleAdjacentCells(quickOpenSetup, [r, c]) after clearing the three
        lists: they end up holding the mines, the hidden cells and the flags
        among the neighbours of (r, c). */
    method SetupAround(r: int, c: int)
      requires mineMap.Length == height * width && InGrid(height, width, r, c)
      modifies this`mines, this`unopened, this`flagged
      ensures mines == MinesAround(r, c)
      ensures unopened == AroundIn(mineMap[..], r, c, HIDDEN)
      ensures flagged == AroundIn(mineMap[..], r, c, FLAGGED)
    {
      flagged, unopened, mines := [], [], [];
      var ns := Neighbours(height, width, r, c);
      NeighboursSpec(height, width, r, c);
      SetupEach(ns);
    }

    /** quickOpenSetup on each cell of ns in turn, from empty lists. */
    method SetupEach(ns: seq<(int, int)>)
      requires mineMap.Length == height * width && forall q :: q in ns ==> InGrid(height, width, q.0, q.1)
      requires mines == [] && unopened == [] && flagged == []
      modifies this`mines, this`unopened, this`flagged
      ensures mines == MinesAmong(mineIdxArray, width, ns)
      ensures unopened == WithState(mineMap[..], width, ns, HIDDEN)
      ensures flagged == WithState(mineMap[..], width, ns, FLAGGED)
    {
      var t := 0;
      while t < |ns|
        invariant 0 <= t <= |ns|
        invariant mines == MinesAmong(mineIdxArray, width, ns[..t])
        invariant unopened == WithState(mineMap[..], width, ns[..t], HIDDEN)
        invariant flagged == WithState(mineMap[..], width, ns[..t], FLAGGED)
      {
        assert ns[t] in ns;
        MinesAmongSnoc(mineIdxArray, width, ns, t);
        WithStateSnoc(mineMap[..], width, ns, t, HIDDEN);
        WithStateSnoc(mineMap[..], width, ns, t, FLAGGED);
        QuickOpenSetup(ns[t].0, ns[t].1);
        t := t + 1;
      }
      assert ns[..t] == ns;
    }

    /** The reveal loop of quickOpen: mineCntTest on each recorded unopened
        cell in turn, carrying on after one of them turns out to be a mine. */
    method OpenUnopened()
      requires Valid() && forall q :: q in unopened ==> InGrid(height, width, q.0, q.1) && StateIs(mineMap[..], width, q, HIDDEN)
      modifies mineMap, this`procCnt, this`gameResult, this`unopened
      ensures Valid() && unopened == []
      ensures Grows(old(mineMap[..]), mineMap[..])
      ensures Closed(height, width, mineCntMap[..], old(mineMap[..]), mineMap[..])
      ensures forall q :: q in old(unopened) ==>
        StateIs(mineMap[..], width, q, if IsMine(q.0, q.1) then HIDDEN else OPENED)
      ensures gameResult == if MinesAmong(mineIdxArray, width, old(unopened)) != [] then LOSE else old(gameResult)
      ensures Reached(height, width, mineCntMap[..], old(mineMap[..]), mineMap[..], Roots(old(unopened)))
    {
      ghost var u := unopened;
      ghost var s0 := mineMap[..];
      ghost var k := 0;
      Unchanged(height, width, mineCntMap[..], s0, Roots(u));
      while |unopened| > 0
        invariant 0 <= k <= |u| && unopened == u[k..]
        invariant Valid() && Grows(s0, mineMap[..]) && Closed(height, width, mineCntMap[..], s0, mineMap[..])
        invariant Reached(height, width, mineCntMap[..], s0, mineMap[..], Roots(u))
        invariant forall j :: 0 <= j < k && !IsMine(u[j].0, u[j].1) ==> StateIs(mineMap[..], width, u[j], OPENED)
        invariant gameResult == if MinesAmong(mineIdxArray, width, u[..k]) != [] then LOSE else old(gameResult)
        decreases |unopened|
      {
        OpenNext(u, k, s0, old(gameResult));
        k := k + 1;
      }
      assert u[..k] == u;
    }

    /** One iteration of the reveal loop of quickOpen: take the first pair
        off unopened (the k-th recorded one) and run mineCntTest on it. */
    method OpenNext(ghost u: seq<(int, int)>, ghost k: int, ghost s0: seq<int>, ghost result0: int)
      requires 0 <= k < |u| && unopened == u[k..]
      requires forall q :: q in u ==> InGrid(height, width, q.0, q.1) && StateIs(s0, width, q, HIDDEN)
      requires Valid() && Grows(s0, mineMap[..]) && Closed(height, width, mineCntMap[..], s0, mineMap[..])
      requires Reached(height, width, mineCntMap[..], s0, mineMap[..], Roots(u))
      requires forall j :: 0 <= j < k && !IsMine(u[j].0, u[j].1) ==> StateIs(mineMap[..], width, u[j], OPENED)
      requires gameResult == if MinesAmong(mineIdxArray, width, u[..k]) != [] then LOSE else result0
      modifies mineMap, this`procCnt, this`gameResult, this`unopened
      ensures unopened == u[k + 1..]
      ensures Valid() && Grows(s0, mineMap[..]) && Closed(height, width, mineCntMap[..], s0, mineMap[..])
      ensures Reached(height, width, mineCntMap[..], s0, mineMap[..], Roots(u))
      ensures forall j :: 0 <= j < k + 1 && !IsMine(u[j].0, u[j].1) ==> StateIs(mineMap[..], width, u[j], OPENED)
      ensures gameResult == if MinesAmong(mineIdxArray, width, u[..k + 1]) != [] then LOSE else result0
    {
      var pair := unopened[0];
      assert pair == u[k] && pair in u;
      unopened := unopened[1..];
      ghost var mid := mineMap[..];
      ghost var i := Idx(pair.0, pair.1);
      // pair was hidden at the start, so now it is hidden or (if no mine) opened
      assert mid[i] == HIDDEN || (mid[i] == OPENED && !IsMine(pair.0, pair.1));
      MineCntTest(pair.0, pair.1);
      ClosedStep(height, width, mineCntMap[..], s0, mid, mineMap[..], -1);
      assert i in Roots(u);
      ReachedSub(height, width, mineCntMap[..], s0, mid, mineMap[..], Roots(u), i);
      MinesAmongSnoc(mineIdxArray, width, u, k);
      forall j | 0 <= j < k && !IsMine(u[j].0, u[j].1) ensures StateIs(mineMap[..], width, u[j], OPENED) {
        assert StateIs(mid, width, u[j], OPENED);
      }
    }

    /** The gated reveal of quickOpen: the recorded unopened cells are
        revealed only when some neighbour is flagged and the recorded flags
        are as many as the recorded mines. */
    method ChordReveal()
      requires Valid() && forall q :: q in unopened ==> InGrid(height, width, q.0, q.1) && StateIs(mineMap[..], width, q, HIDDEN)
      modifies mineMap, this`procCnt, this`gameResult, this`unopened
      ensures Valid()
      ensures Grows(old(mineMap[..]), mineMap[..])
      ensures Closed(height, width, mineCntMap[..], old(mineMap[..]), mineMap[..])
      ensures Reached(height, width, mineCntMap[..], old(mineMap[..]), mineMap[..], Roots(old(unopened)))
      ensures !ChordGate(flagged, mines) ==>
        mineMap[..] == old(mineMap[..]) && procCnt == old(procCnt) && gameResult == old(gameResult) && unopened == old(unopened)
      ensures ChordGate(flagged, mines) ==>
        unopened == [] &&
        (forall q :: q in old(unopened) ==> StateIs(mineMap[..], width, q, if IsMine(q.0, q.1) then HIDDEN else OPENED)) &&
        gameResult == if MinesAmong(mineIdxArray, width, old(unopened)) != [] then LOSE else old(gameResult)
    {
      if |flagged| > 0 && |flagged| == |mines| {
        OpenUnopened();
      } else {
        Unchanged(height, width, mineCntMap[..], mineMap[..], Roots(unopened));
      }
    }

    /** The wrong-flag loop of quickOpen: the recorded flags on cells that
        are not mines, which the page marks with an X. */
    method MarkWrongFlags() returns (wrongFlags: seq<(int, int)>)
      modifies this`flagged
      ensures flagged == [] && wrongFlags == NonMinesAmong(mineIdxArray, width, old(flagged))
    {
      wrongFlags := [];
      ghost var f := flagged;
      while |flagged| > 0
        invariant wrongFlags + NonMinesAmong(mineIdxArray, width, flagged) == NonMinesAmong(mineIdxArray, width, f)
        decreases |flagged|
      {
        var pair := flagged[0];
        ghost var rest := NonMinesAmong(mineIdxArray, width, flagged[1..]);
        flagged := flagged[1..];
        if !IsMine(pair.0, pair.1) {
          assert wrongFlags + [pair] + rest == wrongFlags + ([pair] + rest);
          wrongFlags := wrongFlags + [pair];
        }
      }
    }

    /** The first half of quickOpen: collect the mines, hidden cells and
        flags around the opened cell (r, c), then the gated reveal. */
    method RevealAround(r: int, c: int)
      requires Valid() && InGrid(height, width, r, c)
      modifies mineMap, this`procCnt, this`gameResult, this`mines, this`unopened, this`flagged
      ensures Valid()
      ensures Grows(old(mineMap[..]), mineMap[..])
      ensures Closed(height, width, mineCntMap[..], old(mineMap[..]), mineMap[..])
      ensures mines == MinesAround(r, c) && flagged == AroundIn(old(mineMap[..]), r, c, FLAGGED)
      ensures Reached(height, width, mineCntMap[..], old(mineMap[..]), mineMap[..], Roots(AroundIn(old(mineMap[..]), r, c, HIDDEN)))
      ensures !ChordGate(flagged, mines) ==>
        mineMap[..] == old(mineMap[..]) && procCnt == old(procCnt) &&
        unopened == AroundIn(old(mineMap[..]), r, c, HIDDEN)
      ensures ChordGate(flagged, mines) ==>
        unopened == [] &&
        forall q :: q in AroundIn(old(mineMap[..]), r, c, HIDDEN) ==>
          StateIs(mineMap[..], width, q, if IsMine(q.0, q.1) then HIDDEN else OPENED)
      ensures gameResult ==
        if ChordGate(flagged, mines) && MinesAmong(mineIdxArray, width, AroundIn(old(mineMap[..]), r, c, HIDDEN)) != []
        then LOSE else old(gameResult)
    {
      SetupAround(r, c);
      WithStateMembers(mineMap[..], width, Neighbours(height, width, r, c), HIDDEN);
      ChordReveal();
    }

    /** quickOpen: collect the mines, hidden cells and flags around the
        opened cell (r, c); when some neighbour is flagged and the flags are
        as many as the mines around, reveal every hidden neighbour (all of
        them, even after one turned out to be a mine); then test for a win,
        which may overwrite a loss; after a loss report the flags on cells
        without a mine. */
    method QuickOpen(r: int, c: int) returns (wrongFlags: seq<(int, int)>)
      requires Valid() && InGrid(height, width, r, c)
      modifies mineMap, this`procCnt, this`gameResult, this`mines, this`unopened, this`flagged
      ensures Valid()
      ensures Grows(old(mineMap[..]), mineMap[..])
      ensures Closed(height, width, mineCntMap[..], old(mineMap[..]), mineMap[..])
      ensures mines == MinesAround(r, c)
      ensures Reached(height, width, mineCntMap[..], old(mineMap[..]), mineMap[..], Roots(AroundIn(old(mineMap[..]), r, c, HIDDEN)))
      ensures !ChordGate(AroundIn(old(mineMap[..]), r, c, FLAGGED), MinesAround(r, c)) ==>
        mineMap[..] == old(mineMap[..]) && procCnt == old(procCnt) &&
        unopened == AroundIn(old(mineMap[..]), r, c, HIDDEN)
      ensures ChordGate(AroundIn(old(mineMap[..]), r, c, FLAGGED), MinesAround(r, c)) ==>
        unopened == [] &&
        forall q :: q in AroundIn(old(mineMap[..]), r, c, HIDDEN) ==>
          StateIs(mineMap[..], width, q, if IsMine(q.0, q.1) then HIDDEN else OPENED)
      ensures gameResult ==
        if numMines + procCnt == height * width then WIN
        else if ChordGate(AroundIn(old(mineMap[..]), r, c, FLAGGED), MinesAround(r, c)) &&
                MinesAmong(mineIdxArray, width, AroundIn(old(mineMap[..]), r, c, HIDDEN)) != [] then LOSE
        else old(gameResult)
      ensures gameResult == LOSE ==>
        flagged == [] && wrongFlags == NonMinesAmong(mineIdxArray, width, AroundIn(old(mineMap[..]), r, c, FLAGGED))
      ensures gameResult != LOSE ==>
        flagged == AroundIn(old(mineMap[..]), r, c, FLAGGED) && wrongFlags == []
    {
      RevealAround(r, c);
      CheckWinningCondition();
      wrongFlags := [];
      if gameResult == LOSE {
        wrongFlags := MarkWrongFlags();
      }
    }

    /** A left click recognised by mouseUpHandler on (r, c): ignored once the
        game is over or when the cell is already opened or flagged;
        otherwise mineCntTest and then checkWiningCondition. */
    method LeftClick(r: int, c: int)
      requires Valid() && InGrid(height, width, r, c)
      modifies mineMap, this`procCnt, this`gameResult
      ensures Valid()
      ensures old(gameResult) != PLAYING || old(mineMap[Idx(r, c)]) != HIDDEN ==>
        mineMap[..] == old(mineMap[..]) && procCnt == old(procCnt) && gameResult == old(gameResult)
      ensures old(gameResult) == PLAYING && old(mineMap[Idx(r, c)]) == HIDDEN ==>
        Grows(old(mineMap[..]), mineMap[..]) &&
        Closed(height, width, mineCntMap[..], old(mineMap[..]), mineMap[..]) &&
        Reached(height, width, mineCntMap[..], old(mineMap[..]), mineMap[..], {Idx(r, c)}) &&
        (IsMine(r, c) ==> mineMap[..] == old(mineMap[..])) &&
        (!IsMine(r, c) ==> mineMap[Idx(r, c)] == OPENED) &&
        (!IsMine(r, c) && mineCntMap[Idx(r, c)] > 0 ==> mineMap[..] == old(mineMap[..])[Idx(r, c) := OPENED]) &&
        gameResult == (if numMines + procCnt == height * width then WIN else if IsMine(r, c) then LOSE else PLAYING)
    {
      if gameResult != PLAYING {
        return;
      }
      if CellClicked(r, c) {
        return;
      }
      MineCntTest(r, c);
      CheckWinningCondition();
    }

    /** A right click recognised by mouseUpHandler on (r, c): ignored once
        the game is over, otherwise the flag toggle. */
    method RightClick(r: int, c: int)
      requires Valid() && InGrid(height, width, r, c)
      modifies mineMap, this`flagCnt
      ensures Valid()
      ensures old(gameResult) != PLAYING ==> mineMap[..] == old(mineMap[..]) && flagCnt == old(flagCnt)
      ensures old(gameResult) == PLAYING ==>
        mineMap[..] == old(mineMap[..])[Idx(r, c) := Toggled(old(mineMap[Idx(r, c)]))]
    {
      if gameResult != PLAYING {
        return;
      }
      ToggleFlag(r, c);
    }

    /** A both-button click recognised by mouseUpHandler on (r, c): ignored
        once the game is over, and unless the cell is opened; otherwise quickOpen. */
    method ChordClick(r: int, c: int) returns (wrongFlags: seq<(int, int)>)
      requires Valid() && InGrid(height, width, r, c)
      modifies mineMap, this`procCnt, this`gameResult, this`mines, this`unopened, this`flagged
      ensures Valid()
      ensures old(gameResult) != PLAYING || old(mineMap[Idx(r, c)]) != OPENED ==>
        mineMap[..] == old(mineMap[..]) && procCnt == old(procCnt) && gameResult == old(gameResult) && wrongFlags == []
      ensures old(gameResult) == PLAYING && old(mineMap[Idx(r, c)]) == OPENED ==>
        Grows(old(mineMap[..]), mineMap[..]) &&
        Closed(height, width, mineCntMap[..], old(mineMap[..]), mineMap[..]) &&
        Reached(height, width, mineCntMap[..], old(mineMap[..]), mineMap[..], Roots(AroundIn(old(mineMap[..]), r, c, HIDDEN))) &&
        gameResult ==
          (if numMines + procCnt == height * width then WIN
           else if ChordGate(AroundIn(old(mineMap[..]), r, c, FLAGGED), MinesAround(r, c)) &&
                   MinesAmong(mineIdxArray, width, AroundIn(old(mineMap[..]), r, c, HIDDEN)) != [] then LOSE
           else PLAYING) &&
        (gameResult == LOSE ==> wrongFlags == NonMinesAmong(mineIdxArray, width, AroundIn(old(mineMap[..]), r, c, FLAGGED))) &&
        (gameResult != LOSE ==> wrongFlags == [])
      ensures (old(gameResult) == PLAYING && old(mineMap[Idx(r, c)]) == OPENED &&
               !ChordGate(AroundIn(old(mineMap[..]), r, c, FLAGGED), MinesAround(r, c))) ==>
        mineMap[..] == old(mineMap[..]) && procCnt == old(procCnt)
      ensures (old(gameResult) == PLAYING && old(mineMap[Idx(r, c)]) == OPENED &&
               ChordGate(AroundIn(old(mineMap[..]), r, c, FLAGGED), MinesAround(r, c))) ==>
        forall q :: q in AroundIn(old(mineMap[..]), r, c, HIDDEN) ==>
          StateIs(mineMap[..], width, q, if IsMine(q.0, q.1) then HIDDEN else OPENED)
    {
      wrongFlags := [];
      if gameResult != PLAYING {
        return;
      }
      if CellOpened(r, c) {
        wrongFlags := QuickOpen(r, c);
      }
    }

    /** Two right clicks on the same cell during play leave the board as it was. */
    method RightClickTwice(r: int, c: int)
      requires Valid() && InGrid(height, width, r, c) && gameResult == PLAYING
      modifies mineMap, this`flagCnt
      ensures Valid() && mineMap[..] == old(mineMap[..]) && flagCnt == old(flagCnt)
    {
      RightClick(r, c);
      RightClick(r, c);
      assert mineMap[..] == old(mineMap[..]);
    }
  }

  /** A left click on the last hidden cell without a mine, when that cell
      has an adjacent mine, opens it alone and wins the game. */
  method ClickLastSafe(b: Board, r: int, c: int)
    requires b.Valid() && InGrid(b.height, b.width, r, c) && b.gameResult == PLAYING
    requires b.mineMap[b.Idx(r, c)] == HIDDEN && !b.IsMine(r, c) && b.mineCntMap[b.Idx(r, c)] > 0
    requires b.numMines + b.procCnt + 1 == b.height * b.width
    modifies b.mineMap, b`procCnt, b`gameResult
    ensures b.Valid() && b.procCnt == old(b.procCnt) + 1 && b.gameResult == WIN
  {
    ghost var s0 := b.mineMap[..];
    b.LeftClick(r, c);
    OpenOne(b.height, b.width, b.mineCntMap[..], s0, b.Idx(r, c));
  }

  /** On a 1-by-2 board with its one mine at (0, 0), a left click on (0, 1)
      wins the game. */
  method OneByTwoWin() returns (b: Board)
    ensures b.gameResult == WIN
  {
    var h, w, m, c := 1, 2, 0, 1;
    b := new Board(h, w, 1, [m]);
    SingleMineCount(h, w, m, c);
    assert Adjacent(h, w, c, m);
    assert b.mineCntMap[c] > 0 by {
      assert b.mineCntMap[c] == AdjacentMines(h, w, [m], c);
    }
    assert b.mineMap[c] == HIDDEN && c !in b.mineIdxArray;
    assert b.height * b.width == 2 && b.numMines == 1 && b.procCnt == 0;
    assert InGrid(b.height, b.width, 0, c) && b.Idx(0, c) == c;
    ClickLastSafe(b, 0, c);
  }

  /** What generateMineMap leaves behind: a playable board; a board with no
      cells (a height of 0 or less, or a negative width: minusOnes and zeros
      build no cell and the bounds test of handleAdjacentCells skips every
      neighbour), with the mines placed; the TypeError thrown on a width of 0,
      where the mine's row `Math.floor(0 / 0)` is NaN, every bounds test is
      false and incrementMineCnt indexes a missing row; or, in the model only,
      draws that ran out before the placement loop finished. */
  datatype Generation = Generated(board: Board) | NoCells(mineIdx: seq<int>) | TypeError | OutOfDraws

  /** generateMineMap(h, w) with the draws of Math.random supplied: place
      the mines by rejection, then a fresh board with every cell hidden,
      counts derived and counters reset. */
  method GenerateMineMap(h: int, w: int, numMines: int, draws: seq<int>) returns (g: Generation)
    requires numMines <= h * w
    requires forall k :: 0 <= k < |draws| ==> InDrawRange(h * w, draws[k])
    ensures g.OutOfDraws? <==> |Dedup(draws)| < MineTotal(numMines)
    ensures g.TypeError? <==> |Dedup(draws)| >= MineTotal(numMines) && w == 0
    ensures g.NoCells? <==> |Dedup(draws)| >= MineTotal(numMines) && w != 0 && (h <= 0 || w < 0)
    ensures g.Generated? <==> |Dedup(draws)| >= MineTotal(numMines) && 0 < h && 0 < w
    ensures g.NoCells? ==> g.mineIdx == Dedup(draws)[..MineTotal(numMines)]
    ensures g.Generated? ==>
      fresh(g.board) && fresh(g.board.mineMap) && fresh(g.board.mineCntMap) && g.board.Valid() &&
      g.board.height == h && g.board.width == w && g.board.numMines == numMines &&
      g.board.mineIdxArray == Dedup(draws)[..MineTotal(numMines)] &&
      g.board.mineMap[..] == Filled(h * w, HIDDEN) &&
      g.board.flagCnt == 0 && g.board.procCnt == 0 && g.board.gameResult == PLAYING
  {
    var mineIdx := GenerateMineIdx(h * w, numMines, draws);
    if mineIdx.None? {
      return OutOfDraws;
    }
    if w == 0 {
      return TypeError;
    }
    if h <= 0 || w < 0 {
      return NoCells(mineIdx.value);
    }
    var b := new Board(h, w, numMines, mineIdx.value);
    g := Generated(b);
  }
}

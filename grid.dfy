/** Geometry of the board: cells as (row, column) pairs and as row-major flat
    indices, the neighbour enumeration of handleAdjacentCells, and counting
    over sequences of cell indices. */
module Grid {

  /** (r, c) lies on a board of h rows and w columns. */
  predicate InGrid(h: int, w: int, r: int, c: int) {
    0 <= r < h && 0 <= c < w
  }

  /** Row-major flat index of a cell: row * width + column. */
  function Flat(w: int, r: int, c: int): int {
    r * w + c
  }

  predicate Distinct<T(==)>(s: seq<T>) {
    forall i, j :: 0 <= i < j < |s| ==> s[i] != s[j]
  }

  /** One more element of a prefix. */
  lemma TakeOneMore<T>(s: seq<T>, t: int)
    requires 0 <= t < |s|
    ensures s[..t + 1] == s[..t] + [s[t]]
    ensures forall x :: x in s[..t + 1] <==> x in s[..t] || x == s[t]
  {
    assert s[..t + 1] == s[..t] + [s[t]];
  }

  /** In a duplicate-free sequence no element occurs before its own position. */
  lemma DistinctNotInPrefix<T>(s: seq<T>, t: int)
    requires Distinct(s) && 0 <= t < |s|
    ensures s[t] !in s[..t]
  {
    forall j | 0 <= j < t ensures s[..t][j] != s[t] {
      assert s[..t][j] == s[j];
    }
  }

  lemma {:induction false} MulAtLeast(k: int, w: int)
    requires 0 < w && 0 < k
    ensures k * w >= w
  {
    if k > 1 {
      MulAtLeast(k - 1, w);
      assert k * w == (k - 1) * w + w;
    }
  }

  lemma MulZero(k: int, w: int)
    requires 0 < w && -w < k * w < w
    ensures k == 0
  {
    if k > 0 {
      MulAtLeast(k, w);
    } else if k < 0 {
      MulAtLeast(-k, w);
    }
  }

  /** A flat index splits back into the row and column it was made from. */
  lemma FlatRowCol(w: int, r: int, c: int)
    requires 0 < w && 0 <= c < w
    ensures Flat(w, r, c) / w == r && Flat(w, r, c) % w == c
  {
    var q, m := Flat(w, r, c) / w, Flat(w, r, c) % w;
    assert (r - q) * w == m - c;
    MulZero(r - q, w);
  }

  /** A cell on the board has a flat index in [0, h*w). */
  lemma FlatBounds(h: int, w: int, r: int, c: int)
    requires InGrid(h, w, r, c)
    ensures 0 <= Flat(w, r, c) < h * w
  {
    assert r * w <= (h - 1) * w;
  }

  /** Every flat index in [0, h*w) is the flat index of a cell on the board. */
  lemma RowColBounds(h: int, w: int, j: int)
    requires 0 < w && 0 <= j < h * w
    ensures InGrid(h, w, j / w, j % w) && Flat(w, j / w, j % w) == j
  {
  }

  /** (r2, c2) is one of the up to eight cells around (r, c) on the board:
      row and column offsets in {-1, 0, 1}, not the centre, and in bounds. */
  predicate IsNeighbour(h: int, w: int, r: int, c: int, r2: int, c2: int) {
    InGrid(h, w, r2, c2) && -1 <= r2 - r <= 1 && -1 <= c2 - c <= 1 && (r2 != r || c2 != c)
  }

  /** The eight offsets around (r, c), in the order of the nested loop of
      handleAdjacentCells (row offset outer, column offset inner, centre skipped). */
  function Around(r: int, c: int): seq<(int, int)> {
    [(r - 1, c - 1), (r - 1, c), (r - 1, c + 1),
     (r, c - 1), (r, c + 1),
     (r + 1, c - 1), (r + 1, c), (r + 1, c + 1)]
  }

  /** The elements of s that lie on the board, in order (the out-of-bound skip). */
  function KeepInGrid(h: int, w: int, s: seq<(int, int)>): (k: seq<(int, int)>)
    ensures |k| <= |s|
    ensures forall q :: q in k ==> q in s && InGrid(h, w, q.0, q.1)
  {
    if s == [] then []
    else (if InGrid(h, w, s[0].0, s[0].1) then [s[0]] else []) + KeepInGrid(h, w, s[1..])
  }

  /** The cells handleAdjacentCells applies its callback to, in call order. */
  function Neighbours(h: int, w: int, r: int, c: int): seq<(int, int)> {
    KeepInGrid(h, w, Around(r, c))
  }

  lemma {:induction false} KeepInGridMembers(h: int, w: int, s: seq<(int, int)>)
    ensures forall q :: q in KeepInGrid(h, w, s) <==> q in s && InGrid(h, w, q.0, q.1)
  {
    if s != [] {
      KeepInGridMembers(h, w, s[1..]);
      assert s == [s[0]] + s[1..];
    }
  }

  lemma {:induction false} KeepInGridDistinct(h: int, w: int, s: seq<(int, int)>)
    requires Distinct(s)
    ensures Distinct(KeepInGrid(h, w, s))
  {
    if s != [] {
      KeepInGridDistinct(h, w, s[1..]);
      KeepInGridMembers(h, w, s[1..]);
      var head := if InGrid(h, w, s[0].0, s[0].1) then [s[0]] else [];
      var tail := KeepInGrid(h, w, s[1..]);
      assert s[0] !in s[1..] by {
        forall k | 0 <= k < |s[1..]| ensures s[1..][k] != s[0] {
          assert s[1..][k] == s[k + 1];
        }
      }
      assert forall k :: 0 <= k < |tail| ==> tail[k] in s[1..];
      var k := head + tail;
      forall i, j | 0 <= i < j < |k| ensures k[i] != k[j] {
        if i < |head| {
          assert k[i] == s[0] && k[j] == tail[j - |head|];
        } else {
          assert k[i] == tail[i - |head|] && k[j] == tail[j - |head|];
        }
      }
    }
  }

  /** handleAdjacentCells visits exactly the in-bounds cells at row and column
      offset in {-1, 0, 1} other than the centre, each once, so at most 8. */
  lemma NeighboursSpec(h: int, w: int, r: int, c: int)
    ensures |Neighbours(h, w, r, c)| <= 8
    ensures Distinct(Neighbours(h, w, r, c))
    ensures forall q :: q in Neighbours(h, w, r, c) <==> IsNeighbour(h, w, r, c, q.0, q.1)
  {
    var a := Around(r, c);
    AroundSpec(r, c);
    KeepInGridMembers(h, w, a);
    KeepInGridDistinct(h, w, a);
  }

  /** The eight offsets are distinct and are exactly the cells at Chebyshev distance 1. */
  lemma AroundSpec(r: int, c: int)
    ensures |Around(r, c)| == 8
    ensures Distinct(Around(r, c))
    ensures forall q :: q in Around(r, c) <==> (-1 <= q.0 - r <= 1 && -1 <= q.1 - c <= 1 && (q.0 != r || q.1 != c))
  {
    var a := Around(r, c);
    forall q ensures q in a <==> (-1 <= q.0 - r <= 1 && -1 <= q.1 - c <= 1 && (q.0 != r || q.1 != c)) {
      if -1 <= q.0 - r <= 1 && -1 <= q.1 - c <= 1 && (q.0 != r || q.1 != c) {
        if q.0 == r - 1 {
          assert q == a[0] || q == a[1] || q == a[2];
        } else if q.0 == r {
          assert q == a[3] || q == a[4];
        } else {
          assert q == a[5] || q == a[6] || q == a[7];
        }
      }
    }
  }

  /** Flat indices of a sequence of cells, position by position. */
  function MapFlat(w: int, qs: seq<(int, int)>): (fs: seq<int>)
    ensures |fs| == |qs|
    ensures forall k :: 0 <= k < |qs| ==> fs[k] == Flat(w, qs[k].0, qs[k].1)
  {
    if qs == [] then []
    else MapFlat(w, qs[..|qs| - 1]) + [Flat(w, qs[|qs| - 1].0, qs[|qs| - 1].1)]
  }

  /** Flat cells i and j are neighbours on the h-by-w board. */
  predicate Adjacent(h: int, w: int, i: int, j: int)
    requires 0 < w
  {
    0 <= i < h * w && 0 <= j < h * w && IsNeighbour(h, w, i / w, i % w, j / w, j % w)
  }

  /** The flat indices of the neighbours of flat cell i, in call order. */
  function NeighbourIdx(h: int, w: int, i: int): seq<int>
    requires 0 < w
  {
    MapFlat(w, Neighbours(h, w, i / w, i % w))
  }

  lemma AdjacentSymmetric(h: int, w: int, i: int, j: int)
    requires 0 < w
    ensures Adjacent(h, w, i, j) <==> Adjacent(h, w, j, i)
  {
  }

  /** The neighbour index list of a cell holds exactly its adjacent cells, once each. */
  lemma NeighbourIdxSpec(h: int, w: int, i: int)
    requires 0 < w && 0 <= i < h * w
    ensures |NeighbourIdx(h, w, i)| <= 8
    ensures Distinct(NeighbourIdx(h, w, i))
    ensures forall j :: j in NeighbourIdx(h, w, i) <==> Adjacent(h, w, i, j)
  {
    var r, c := i / w, i % w;
    var ns := Neighbours(h, w, r, c);
    var fs := NeighbourIdx(h, w, i);
    NeighboursSpec(h, w, r, c);
    RowColBounds(h, w, i);
    forall k | 0 <= k < |ns|
      ensures 0 <= fs[k] < h * w && fs[k] / w == ns[k].0 && fs[k] % w == ns[k].1
    {
      assert ns[k] in ns;
      FlatRowCol(w, ns[k].0, ns[k].1);
      FlatBounds(h, w, ns[k].0, ns[k].1);
    }
    forall j ensures j in fs <==> Adjacent(h, w, i, j) {
      if j in fs {
        var k :| 0 <= k < |fs| && fs[k] == j;
        assert ns[k] in ns;
      }
      if Adjacent(h, w, i, j) {
        RowColBounds(h, w, j);
        var q := (j / w, j % w);
        assert q in ns;
        var k :| 0 <= k < |ns| && ns[k] == q;
        assert fs[k] == j;
      }
    }
    forall a, b | 0 <= a < b < |fs| ensures fs[a] != fs[b] {
      assert ns[a] != ns[b];
    }
  }

  /** Position by position, the neighbour index list of i holds the flat
      indices of the on-board neighbour cells, without repeats. */
  lemma NeighbourIdxCells(h: int, w: int, i: int)
    requires 0 < w && 0 <= i < h * w
    ensures |NeighbourIdx(h, w, i)| == |Neighbours(h, w, i / w, i % w)|
    ensures Distinct(NeighbourIdx(h, w, i))
    ensures forall k :: 0 <= k < |NeighbourIdx(h, w, i)| ==>
      InGrid(h, w, Neighbours(h, w, i / w, i % w)[k].0, Neighbours(h, w, i / w, i % w)[k].1) &&
      NeighbourIdx(h, w, i)[k] == Flat(w, Neighbours(h, w, i / w, i % w)[k].0, Neighbours(h, w, i / w, i % w)[k].1) &&
      0 <= NeighbourIdx(h, w, i)[k] < h * w
  {
    var ns := Neighbours(h, w, i / w, i % w);
    NeighbourIdxSpec(h, w, i);
    forall k | 0 <= k < |ns|
      ensures InGrid(h, w, ns[k].0, ns[k].1) && 0 <= NeighbourIdx(h, w, i)[k] < h * w
    {
      assert ns[k] in ns;
      FlatBounds(h, w, ns[k].0, ns[k].1);
    }
  }

  /** How many elements of s occur in t. */
  function CountIn(s: seq<int>, t: seq<int>): (n: nat)
    ensures n <= |s|
  {
    if s == [] then 0
    else CountIn(s[..|s| - 1], t) + (if s[|s| - 1] in t then 1 else 0)
  }

  /** For a duplicate-free s, CountIn is the size of the common part of s and t. */
  lemma {:induction false} CountInSet(s: seq<int>, t: seq<int>)
    requires Distinct(s)
    ensures CountIn(s, t) == |set x | x in s && x in t|
  {
    if s != [] {
      var p, x := s[..|s| - 1], s[|s| - 1];
      assert Distinct(p);
      CountInSet(p, t);
      assert x !in p by {
        forall k | 0 <= k < |p| ensures p[k] != x {
          assert p[k] == s[k];
        }
      }
      var sp := set y | y in p && y in t;
      var ss := set y | y in s && y in t;
      assert s == p + [x];
      if x in t {
        assert ss == sp + {x};
        assert x !in sp;
      } else {
        assert ss == sp;
      }
    }
  }

  /** CountIn is 0 exactly when no element of s occurs in t. */
  lemma {:induction false} CountInZero(s: seq<int>, t: seq<int>)
    ensures CountIn(s, t) == 0 <==> forall x :: x in s ==> x !in t
  {
    if s != [] {
      var p := s[..|s| - 1];
      CountInZero(p, t);
      assert s == p + [s[|s| - 1]];
      assert forall x :: x in s <==> x in p || x == s[|s| - 1];
    }
  }

  /** The flat board of n cells, all holding v (minusOnes and zeros, row-major). */
  function Filled(n: nat, v: int): (s: seq<int>)
    ensures |s| == n
    ensures forall i :: 0 <= i < n ==> s[i] == v
  {
    if n == 0 then [] else Filled(n - 1, v) + [v]
  }
}

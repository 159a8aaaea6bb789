/**
  The board geometry of the minefield: a row-major grid of `width * height`
  cells, each named by one flat index `row * width + col`, and the eight-cell
  neighbourhood as the engine enumerates it with its flat-index tests.
 */
module Grid {

  /** The three game constants (board columns, board rows, mines), taken as parameters. */
  datatype Config = Config(width: nat, height: nat, mines: nat)

  predicate WellSized(c: Config) {
    c.width > 0 && c.height > 0
  }

  function Size(c: Config): nat {
    c.width * c.height
  }

  predicate InGrid(c: Config, i: int) {
    0 <= i < Size(c)
  }

  /** The indices `0 .. n - 1`. */
  function Range(n: nat): (s: set<int>)
    ensures forall i :: i in s <==> 0 <= i < n
    ensures |s| == n
  {
    if n == 0 then {} else Range(n - 1) + {n - 1}
  }

  /** Every index of the board. */
  function AllCells(c: Config): set<int> {
    Range(Size(c))
  }

  function Row(c: Config, i: int): int
    requires c.width > 0
  {
    i / c.width
  }

  function Col(c: Config, i: int): int
    requires c.width > 0
  {
    i % c.width
  }

  /** The geometric reference: distinct cells at most one row and one column apart. */
  predicate Adjacent(c: Config, i: int, j: int)
    requires c.width > 0
  {
    && i != j
    && -1 <= Row(c, j) - Row(c, i) <= 1
    && -1 <= Col(c, j) - Col(c, i) <= 1
  }

  /** A direction as (row step, column step). */
  type Offset = (int, int)

  predicate Unit(d: Offset) {
    -1 <= d.0 <= 1 && -1 <= d.1 <= 1 && d != (0, 0)
  }

  /** The eight directions in the order the engine visits them:
      up, down, left, right, up-left, up-right, down-left, down-right. */
  const Offsets: seq<Offset> := [(-1, 0), (1, 0), (0, -1), (0, 1), (-1, -1), (-1, 1), (1, -1), (1, 1)]

  /** The engine's edge test for one direction, on the flat index only:
      `i >= WIDTH` before going up, `i < (HEIGHT - 1) * WIDTH` before going down,
      `i % WIDTH != 0` before going left, `i % WIDTH != WIDTH - 1` before going right. */
  predicate Guard(c: Config, i: int, d: Offset)
    requires c.width > 0
  {
    && (d.0 == -1 ==> i >= c.width)
    && (d.0 == 1 ==> i < (c.height - 1) * c.width)
    && (d.1 == -1 ==> i % c.width != 0)
    && (d.1 == 1 ==> i % c.width != c.width - 1)
  }

  function Step(c: Config, i: int, d: Offset): int {
    i + d.0 * c.width + d.1
  }

  function NeighboursFrom(c: Config, i: int, ds: seq<Offset>): seq<int>
    requires c.width > 0
  {
    if ds == [] then []
    else (if Guard(c, i, ds[0]) then [Step(c, i, ds[0])] else []) + NeighboursFrom(c, i, ds[1..])
  }

  /** The neighbours of `i`, in visiting order. */
  function Neighbours(c: Config, i: int): seq<int>
    requires c.width > 0
  {
    NeighboursFrom(c, i, Offsets)
  }

  predicate NoDup<T(==)>(s: seq<T>) {
    forall a, b :: 0 <= a < b < |s| ==> s[a] != s[b]
  }

  // ---------------------------------------------------------------------------
  // Arithmetic on the row-major layout

  lemma MulLe(a: int, b: int, w: int)
    requires a <= b && w >= 0
    ensures a * w <= b * w
  {
    assert b * w - a * w == (b - a) * w;
  }

  lemma Distrib(a: int, b: int, w: int)
    ensures (a + b) * w == a * w + b * w
  {
  }

  /** Row and column are the unique quotient and remainder of the layout. */
  lemma Layout(w: int, r: int, k: int)
    requires w > 0 && 0 <= k < w
    ensures (r * w + k) / w == r
    ensures (r * w + k) % w == k
  {
    var i := r * w + k;
    var q, m := i / w, i % w;
    assert i == q * w + m;
    Distrib(r, -q, w);
    if q < r {
      MulLe(1, r - q, w);
    } else if q > r {
      MulLe(1, q - r, w);
    }
  }

  /** A cell given by row and column inside the board. */
  lemma AtRowCol(c: Config, r: int, k: int)
    requires WellSized(c) && 0 <= r < c.height && 0 <= k < c.width
    ensures InGrid(c, r * c.width + k)
    ensures Row(c, r * c.width + k) == r && Col(c, r * c.width + k) == k
  {
    Layout(c.width, r, k);
    MulLe(0, r, c.width);
    MulLe(r + 1, c.height, c.width);
    Distrib(r, 1, c.width);
  }

  lemma RowBounds(c: Config, i: int)
    requires WellSized(c) && InGrid(c, i)
    ensures i == Row(c, i) * c.width + Col(c, i)
    ensures 0 <= Row(c, i) < c.height
    ensures 0 <= Col(c, i) < c.width
  {
    var r := Row(c, i);
    assert i == r * c.width + Col(c, i);
    if r < 0 {
      MulLe(r, -1, c.width);
    }
    if r >= c.height {
      MulLe(c.height, r, c.width);
    }
  }

  /** The up and down guards are row tests in disguise. */
  lemma GuardRows(c: Config, i: int)
    requires WellSized(c) && InGrid(c, i)
    ensures i >= c.width <==> Row(c, i) >= 1
    ensures i < (c.height - 1) * c.width <==> Row(c, i) < c.height - 1
  {
    var r, k := Row(c, i), Col(c, i);
    RowBounds(c, i);
    if r >= 1 {
      MulLe(1, r, c.width);
    } else {
      MulLe(r, 0, c.width);
    }
    if r >= c.height - 1 {
      MulLe(c.height - 1, r, c.width);
    } else {
      MulLe(r + 1, c.height - 1, c.width);
      Distrib(r, 1, c.width);
    }
  }

  /** A guarded step lands inside the grid, one row and column away, with no wrap-around. */
  lemma StepGeometry(c: Config, i: int, d: Offset)
    requires WellSized(c) && InGrid(c, i) && Unit(d) && Guard(c, i, d)
    ensures InGrid(c, Step(c, i, d))
    ensures Row(c, Step(c, i, d)) == Row(c, i) + d.0
    ensures Col(c, Step(c, i, d)) == Col(c, i) + d.1
  {
    var r, k := Row(c, i), Col(c, i);
    RowBounds(c, i);
    GuardRows(c, i);
    Distrib(r, d.0, c.width);
    assert Step(c, i, d) == (r + d.0) * c.width + (k + d.1);
    AtRowCol(c, r + d.0, k + d.1);
  }

  /** Every in-grid adjacent cell is reached by a guarded step. */
  lemma GuardComplete(c: Config, i: int, j: int)
    requires WellSized(c) && InGrid(c, i) && InGrid(c, j) && Adjacent(c, i, j)
    ensures Unit((Row(c, j) - Row(c, i), Col(c, j) - Col(c, i)))
    ensures Guard(c, i, (Row(c, j) - Row(c, i), Col(c, j) - Col(c, i)))
    ensures Step(c, i, (Row(c, j) - Row(c, i), Col(c, j) - Col(c, i))) == j
  {
    var r, k := Row(c, i), Col(c, i);
    var rj, kj := Row(c, j), Col(c, j);
    RowBounds(c, i);
    RowBounds(c, j);
    GuardRows(c, i);
    StepBack(c.width, r, k, rj, kj);
  }

  lemma StepBack(w: int, r: int, k: int, rj: int, kj: int)
    ensures (r * w + k) + (rj - r) * w + (kj - k) == rj * w + kj
  {
    Distrib(rj, -r, w);
  }

  // ---------------------------------------------------------------------------
  // The neighbour list is exactly the geometric neighbourhood

  lemma {:induction false} NeighboursFromSound(c: Config, i: int, ds: seq<Offset>)
    requires WellSized(c) && InGrid(c, i)
    requires forall k :: 0 <= k < |ds| ==> Unit(ds[k])
    ensures |NeighboursFrom(c, i, ds)| <= |ds|
    ensures forall j :: j in NeighboursFrom(c, i, ds) ==>
              InGrid(c, j) && Adjacent(c, i, j) && (Row(c, j) - Row(c, i), Col(c, j) - Col(c, i)) in ds
  {
    if ds != [] {
      NeighboursFromSound(c, i, ds[1..]);
      if Guard(c, i, ds[0]) {
        StepGeometry(c, i, ds[0]);
      }
    }
  }

  lemma {:induction false} NeighboursFromComplete(c: Config, i: int, ds: seq<Offset>)
    requires c.width > 0
    ensures forall k :: 0 <= k < |ds| && Guard(c, i, ds[k]) ==> Step(c, i, ds[k]) in NeighboursFrom(c, i, ds)
  {
    if ds != [] {
      NeighboursFromComplete(c, i, ds[1..]);
      forall k | 0 <= k < |ds| && Guard(c, i, ds[k])
        ensures Step(c, i, ds[k]) in NeighboursFrom(c, i, ds)
      {
        if k > 0 {
          assert ds[k] == ds[1..][k - 1];
        }
      }
    }
  }

  lemma {:induction false} NeighboursFromNoDup(c: Config, i: int, ds: seq<Offset>)
    requires WellSized(c) && InGrid(c, i)
    requires forall k :: 0 <= k < |ds| ==> Unit(ds[k])
    requires NoDup(ds)
    ensures NoDup(NeighboursFrom(c, i, ds))
  {
    if ds != [] {
      var d := ds[0];
      var rest := NeighboursFrom(c, i, ds[1..]);
      assert NoDup(ds[1..]);
      NeighboursFromNoDup(c, i, ds[1..]);
      NeighboursFromSound(c, i, ds[1..]);
      if Guard(c, i, d) {
        var x := Step(c, i, d);
        StepGeometry(c, i, d);
        assert d !in ds[1..] by {
          forall b | 0 <= b < |ds[1..]|
            ensures ds[1..][b] != d
          {
            assert ds[1..][b] == ds[b + 1];
          }
        }
        var all := [x] + rest;
        assert NeighboursFrom(c, i, ds) == all;
        forall a, b | 0 <= a < b < |all|
          ensures all[a] != all[b]
        {
          assert all[b] == rest[b - 1];
          if a > 0 {
            assert all[a] == rest[a - 1];
          }
        }
      } else {
        assert NeighboursFrom(c, i, ds) == rest;
      }
    }
  }

  lemma OffsetsShape()
    ensures |Offsets| == 8
    ensures forall k :: 0 <= k < |Offsets| ==> Unit(Offsets[k])
    ensures NoDup(Offsets)
  {
  }

  /** No wrap-around: the engine's neighbour list holds exactly the in-grid cells
      adjacent to `i`, each once, and at most eight of them. */
  lemma NeighbourhoodExact(c: Config, i: int)
    requires WellSized(c) && InGrid(c, i)
    ensures forall j :: j in Neighbours(c, i) <==> InGrid(c, j) && Adjacent(c, i, j)
    ensures NoDup(Neighbours(c, i))
    ensures |Neighbours(c, i)| <= 8
  {
    OffsetsShape();
    NeighboursFromSound(c, i, Offsets);
    NeighboursFromComplete(c, i, Offsets);
    NeighboursFromNoDup(c, i, Offsets);
    forall j | InGrid(c, j) && Adjacent(c, i, j)
      ensures j in Neighbours(c, i)
    {
      GuardComplete(c, i, j);
      var d := (Row(c, j) - Row(c, i), Col(c, j) - Col(c, i));
      assert d in Offsets;
      var k :| 0 <= k < |Offsets| && Offsets[k] == d;
    }
  }

  /** Adjacency is symmetric, so the neighbourhood relation is too. */
  lemma NeighbourSymmetric(c: Config, i: int, j: int)
    requires WellSized(c) && InGrid(c, i)
    requires j in Neighbours(c, i)
    ensures InGrid(c, j) && i in Neighbours(c, j)
  {
    NeighbourhoodExact(c, i);
    NeighbourhoodExact(c, j);
  }
}

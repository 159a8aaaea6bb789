/**
  Building a minefield: mines placed by rejection sampling over candidate
  indices, then every non-mine cell given the number of mines among its
  in-grid neighbours.
 */
module Minefield {
  import opened Grid

  /** What a cell holds: a mine, or the count of mines around it. */
  datatype Content = Mine | Count(n: nat)

  datatype Option<T> = None | Some(value: T)

  /** The indices of the cells that hold a mine. */
  function MineSet(cells: seq<Content>): set<int> {
    set j | 0 <= j < |cells| && cells[j].Mine?
  }

  function Elems(s: seq<int>): set<int> {
    set x | x in s
  }

  lemma ElemsCons(s: seq<int>)
    requires |s| > 0
    ensures Elems(s) == {s[0]} + Elems(s[1..])
  {
    assert s == [s[0]] + s[1..];
  }

  lemma ElemsSnoc(s: seq<int>, k: nat)
    requires k < |s|
    ensures Elems(s[..k + 1]) == Elems(s[..k]) + {s[k]}
  {
    assert s[..k + 1] == s[..k] + [s[k]];
  }

  lemma MineSetPlace(cells: seq<Content>, j: int)
    requires 0 <= j < |cells| && !cells[j].Mine?
    ensures MineSet(cells[j := Mine]) == MineSet(cells) + {j}
    ensures |MineSet(cells[j := Mine])| == |MineSet(cells)| + 1
  {
    assert MineSet(cells[j := Mine]) == MineSet(cells) + {j};
  }

  lemma MineSetNone(n: nat)
    ensures MineSet(seq(n, _ => Count(0))) == {}
  {
  }

  /** The mines next to cell `i`, by geometry alone. */
  function MinesAround(c: Config, cells: seq<Content>, i: int): set<int>
    requires c.width > 0
  {
    set j | j in MineSet(cells) && Adjacent(c, i, j)
  }

  /** Every non-mine cell holds the number of mines adjacent to it. */
  ghost predicate Calculated(c: Config, cells: seq<Content>)
    requires c.width > 0
  {
    forall i :: 0 <= i < |cells| && !cells[i].Mine? ==> cells[i] == Count(|MinesAround(c, cells, i)|)
  }

  // ---------------------------------------------------------------------------
  // Mine placement

  /** Place `c.mines` mines, taking candidate indices from `draws` in order
      (they stand for the successive random draws). A candidate that already
      holds a mine is skipped; placement stops as soon as enough mines are
      down, and gives `None` if the draws run out first. `used` is the number
      of draws consumed. */
  method PopulateMinefield(c: Config, draws: seq<int>) returns (cells: Option<seq<Content>>, used: nat)
    requires forall k :: 0 <= k < |draws| ==> InGrid(c, draws[k])
    ensures used <= |draws|
    ensures cells.Some? <==> c.mines <= |Elems(draws)|
    ensures cells.Some? ==> |cells.value| == Size(c)
    ensures cells.Some? ==> MineSet(cells.value) == Elems(draws[..used])
    ensures cells.Some? ==> |MineSet(cells.value)| == c.mines
    ensures cells.Some? ==> forall j :: 0 <= j < |cells.value| && !cells.value[j].Mine? ==> cells.value[j] == Count(0)
    ensures cells.Some? && used > 0 ==> |Elems(draws[..used - 1])| < c.mines
  {
    var board := seq(Size(c), _ => Count(0));
    var placed := 0;
    var k := 0;
    MineSetNone(Size(c));
    while placed < c.mines && k < |draws|
      invariant 0 <= k <= |draws|
      invariant |board| == Size(c)
      invariant MineSet(board) == Elems(draws[..k])
      invariant placed == |MineSet(board)| <= c.mines
      invariant forall j :: 0 <= j < |board| && !board[j].Mine? ==> board[j] == Count(0)
      invariant k > 0 ==> |Elems(draws[..k - 1])| < c.mines
      decreases |draws| - k
    {
      var candidate := draws[k];
      ElemsSnoc(draws, k);
      if !board[candidate].Mine? {
        MineSetPlace(board, candidate);
        board := board[candidate := Mine];
        placed := placed + 1;
      }
      k := k + 1;
    }
    used := k;
    ElemsPrefix(draws, k);
    if placed == c.mines {
      cells := Some(board);
    } else {
      cells := None;
    }
  }

  lemma ElemsPrefix(s: seq<int>, k: nat)
    requires k <= |s|
    ensures Elems(s[..k]) <= Elems(s)
    ensures |Elems(s[..k])| <= |Elems(s)|
    ensures k == |s| ==> Elems(s[..k]) == Elems(s)
  {
    assert s[..|s|] == s;
    SubsetCard(Elems(s[..k]), Elems(s));
  }

  lemma SubsetCard(a: set<int>, b: set<int>)
    requires a <= b
    ensures |a| <= |b|
    ensures |a| == |b| ==> a == b
  {
    assert b == a + (b - a);
    assert a * (b - a) == {};
  }

  // ---------------------------------------------------------------------------
  // Adjacency counts

  /** Mines among the listed cells, counted one by one. */
  function CountMines(cells: seq<Content>, s: seq<int>): nat
    requires forall k :: 0 <= k < |s| ==> 0 <= s[k] < |cells|
  {
    if s == [] then 0
    else (if cells[s[0]].Mine? then 1 else 0) + CountMines(cells, s[1..])
  }

  lemma {:induction false} CountMinesIsCard(cells: seq<Content>, s: seq<int>)
    requires forall k :: 0 <= k < |s| ==> 0 <= s[k] < |cells|
    requires NoDup(s)
    ensures CountMines(cells, s) == |set j | j in s && j in MineSet(cells)|
  {
    if s != [] {
      var rest := s[1..];
      assert NoDup(rest);
      CountMinesIsCard(cells, rest);
      var all := set j | j in s && j in MineSet(cells);
      var tail := set j | j in rest && j in MineSet(cells);
      assert s[0] !in rest by {
        forall b | 0 <= b < |rest|
          ensures rest[b] != s[0]
        {
          assert rest[b] == s[b + 1];
        }
      }
      if cells[s[0]].Mine? {
        assert all == tail + {s[0]};
      } else {
        assert all == tail;
      }
    }
  }

  lemma NeighbourMines(c: Config, cells: seq<Content>, i: int)
    requires WellSized(c) && |cells| == Size(c) && InGrid(c, i)
    ensures forall k :: 0 <= k < |Neighbours(c, i)| ==> 0 <= Neighbours(c, i)[k] < |cells|
    ensures NoDup(Neighbours(c, i))
    ensures (set j | j in Neighbours(c, i) && j in MineSet(cells)) == MinesAround(c, cells, i)
  {
    NeighbourhoodExact(c, i);
    forall k | 0 <= k < |Neighbours(c, i)|
      ensures 0 <= Neighbours(c, i)[k] < |cells|
    {
      assert Neighbours(c, i)[k] in Neighbours(c, i);
    }
    forall j
      ensures j in Neighbours(c, i) && j in MineSet(cells) <==> j in MinesAround(c, cells, i)
    {
      if j in MineSet(cells) {
        assert InGrid(c, j);
      }
    }
  }

  /** The engine's count for cell `i`: one test per direction, in visiting order.
      It equals the number of mines adjacent to `i` and never exceeds eight. */
  function AdjacentMines(c: Config, cells: seq<Content>, i: int): (n: nat)
    requires WellSized(c) && |cells| == Size(c) && InGrid(c, i)
    ensures n == |MinesAround(c, cells, i)|
    ensures n <= 8
  {
    NeighbourMines(c, cells, i);
    CountMinesIsCard(cells, Neighbours(c, i));
    CountMinesAtMost(cells, Neighbours(c, i));
    NeighbourhoodExact(c, i);
    CountMines(cells, Neighbours(c, i))
  }

  lemma {:induction false} CountMinesAtMost(cells: seq<Content>, s: seq<int>)
    requires forall k :: 0 <= k < |s| ==> 0 <= s[k] < |cells|
    ensures CountMines(cells, s) <= |s|
  {
    if s != [] {
      CountMinesAtMost(cells, s[1..]);
    }
  }

  /** Replace every non-mine cell by its adjacency count, in index order and in
      place, reading mines from the board being rewritten. Mines stay where
      they are. */
  method CalculateMinefield(c: Config, cells: seq<Content>) returns (r: seq<Content>)
    requires WellSized(c) && |cells| == Size(c)
    ensures |r| == |cells|
    ensures forall j :: 0 <= j < |r| ==> (r[j].Mine? <==> cells[j].Mine?)
    ensures MineSet(r) == MineSet(cells)
    ensures Calculated(c, r)
    ensures forall j :: 0 <= j < |r| && !r[j].Mine? ==> r[j].n <= 8
  {
    r := cells;
    var i := 0;
    while i < |r|
      invariant 0 <= i <= |r| == |cells|
      invariant forall j :: 0 <= j < |r| ==> (r[j].Mine? <==> cells[j].Mine?)
      invariant MineSet(r) == MineSet(cells)
      invariant forall j :: 0 <= j < i && !r[j].Mine? ==> r[j] == Count(|MinesAround(c, cells, j)|) && r[j].n <= 8
    {
      if !r[i].Mine? {
        var mines := AdjacentMines(c, r, i);
        r := r[i := Count(mines)];
        assert MineSet(r) == MineSet(cells);
      }
      i := i + 1;
    }
  }

  /** A zero count means no neighbour holds a mine. */
  lemma ZeroHasSafeNeighbours(c: Config, cells: seq<Content>, i: int)
    requires WellSized(c) && |cells| == Size(c) && InGrid(c, i)
    requires Calculated(c, cells) && cells[i] == Count(0)
    ensures forall j :: j in Neighbours(c, i) ==> InGrid(c, j) && !cells[j].Mine?
  {
    NeighbourhoodExact(c, i);
    assert MinesAround(c, cells, i) == {};
    forall j | j in Neighbours(c, i)
      ensures InGrid(c, j) && !cells[j].Mine?
    {
      assert j !in MinesAround(c, cells, i);
    }
  }
}

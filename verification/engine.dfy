/**
  The game engine: one game session as an immutable value. Revealing a cell
  cascades over zero-count cells, flagging keeps the remaining-marker counter
  in step, and the end of the game discloses mines, marks wrong flags and
  locks the board.
 */
module Engine {
  import opened Grid
  import opened Minefield

  /** A session. The sets record which cells carry each mark: `revealed`
      (opened by the player or the cascade), `flags` (marker placed),
      `exploded` (the mine that was hit), `disclosed` (mine shown at the end)
      and `wrongFlags` (marker shown as misplaced at the end). `over` means the
      board no longer accepts clicks or markers; `timing` means the elapsed-time
      clock runs. */
  datatype Game = Game(
    cfg: Config,
    cells: seq<Content>,
    revealed: set<int>,
    flags: set<int>,
    markersRemaining: int,
    gameWon: bool,
    over: bool,
    timing: bool,
    exploded: set<int>,
    disclosed: set<int>,
    wrongFlags: set<int>)

  /** The shape every session has: a sized board and marks on board cells only. */
  predicate Valid(g: Game) {
    && WellSized(g.cfg)
    && |g.cells| == Size(g.cfg)
    && (forall j :: j in g.revealed ==> InGrid(g.cfg, j))
    && (forall j :: j in g.flags ==> InGrid(g.cfg, j))
  }

  /** The number of cells without a mine: revealing this many cells wins. */
  function EmptyCells(c: Config): int {
    Size(c) - c.mines
  }

  /** The cells not revealed yet; the cascade shrinks this set. */
  function Hidden(g: Game): set<int> {
    AllCells(g.cfg) - g.revealed
  }

  // ---------------------------------------------------------------------------
  // Relations between a session and a later one

  /** `r` arises from `g` by revealing cells: the board and the win flag are
      unchanged, revealed cells only grow, a flag goes exactly when its cell
      is revealed, the counter moves with the flags, end-of-game marks only
      grow (new disclosures on mines, new wrong marks on flags off mines, and
      none while the game goes on), and a new explosion ends the game. */
  ghost predicate Follows(g: Game, r: Game) {
    && r.cfg == g.cfg && r.cells == g.cells && r.gameWon == g.gameWon
    && g.revealed <= r.revealed
    && r.flags == g.flags - (r.revealed - g.revealed)
    && r.markersRemaining - g.markersRemaining == |g.flags| - |r.flags|
    && g.exploded <= r.exploded && g.disclosed <= r.disclosed && g.wrongFlags <= r.wrongFlags
    && (g.over ==> r.over)
    && (r.exploded != g.exploded ==> r.over)
    && r.exploded - g.exploded <= (r.revealed - g.revealed) * MineSet(g.cells)
    && r.disclosed - g.disclosed <= MineSet(g.cells)
    && r.wrongFlags - g.wrongFlags <= g.flags - MineSet(g.cells)
    && (!r.over ==> r.timing == g.timing && r.disclosed == g.disclosed && r.wrongFlags == g.wrongFlags)
  }

  /** Every revealed zero-count cell in `s` has all its neighbours revealed. */
  ghost predicate ClosedOn(r: Game, s: set<int>)
    requires Valid(r)
  {
    forall j :: j in s && 0 <= j < |r.cells| && r.cells[j] == Count(0) ==>
      forall k :: k in Neighbours(r.cfg, j) ==> k in r.revealed
  }

  /** A walk over cells hidden in `g` that steps to a neighbour and moves on
      only from a zero-count cell: the route a cascade can take. */
  ghost predicate Trail(g: Game, p: seq<int>)
    requires Valid(g)
  {
    && |p| > 0
    && (forall k :: 0 <= k < |p| ==> InGrid(g.cfg, p[k]) && p[k] !in g.revealed)
    && (forall k :: 0 <= k < |p| - 1 ==> g.cells[p[k]] == Count(0) && p[k + 1] in Neighbours(g.cfg, p[k]))
  }

  /** `j` is the end of a trail in `g` that starts at one of `roots`. */
  ghost predicate Reached(g: Game, roots: set<int>, j: int)
    requires Valid(g)
  {
    exists p :: Trail(g, p) && p[0] in roots && p[|p| - 1] == j
  }

  /** No cell newly revealed between `g` and `r` holds a mine. */
  ghost predicate NoMineHit(g: Game, r: Game) {
    (r.revealed - g.revealed) * MineSet(g.cells) == {}
  }

  /** Once the board is locked, every flag on a non-mine cell is marked wrong
      and, unless the game was won, every mine is disclosed. */
  ghost predicate Settled(g: Game) {
    g.over ==>
      && g.flags - MineSet(g.cells) <= g.wrongFlags
      && (!g.gameWon ==> MineSet(g.cells) <= g.disclosed)
  }

  // ---------------------------------------------------------------------------
  // Operations

  /** End the game: lock the board, stop the clock, disclose every mine unless
      the game was won, and mark every flag that sits on a non-mine cell. */
  function GameOver(g: Game): (r: Game)
    requires Valid(g)
    ensures Valid(r) && r.over && !r.timing
    ensures Settled(r)
    ensures r.gameWon ==> r.disclosed == g.disclosed
    ensures g.disclosed <= r.disclosed && g.wrongFlags <= r.wrongFlags
    ensures r.disclosed - g.disclosed <= MineSet(g.cells) && r.wrongFlags - g.wrongFlags <= g.flags
    ensures (r.wrongFlags - g.wrongFlags) !! MineSet(g.cells)
    ensures r == g.(over := true, timing := false, disclosed := r.disclosed, wrongFlags := r.wrongFlags)
  {
    g.(over := true,
       timing := false,
       disclosed := if g.gameWon then g.disclosed else g.disclosed + MineSet(g.cells),
       wrongFlags := g.wrongFlags + (g.flags - MineSet(g.cells)))
  }

  /** The new cells in `r`. */
  function Uncovered(g: Game, r: Game): set<int> {
    r.revealed - g.revealed
  }

  /** `r` arises from `g` by revealing cells: it follows `g`, every newly
      revealed mine exploded, nothing but the reveal marks changes unless a
      mine was hit, and end-of-game marking is kept. */
  ghost predicate Expands(g: Game, r: Game) {
    && Valid(g) && Valid(r) && Follows(g, r)
    && Uncovered(g, r) * MineSet(g.cells) <= r.exploded
    && (!NoMineHit(g, r) ==> r.over)
    && (NoMineHit(g, r) ==> r == g.(revealed := r.revealed, flags := r.flags, markersRemaining := r.markersRemaining))
    && (Settled(g) ==> Settled(r))
  }

  /** Every newly revealed cell lies on a trail from `roots`. */
  ghost predicate Sourced(g: Game, r: Game, roots: set<int>)
    requires Valid(g)
  {
    forall j :: j in Uncovered(g, r) ==> Reached(g, roots, j)
  }

  /** A finished cascade from `roots`: an expansion whose new cells all lie on
      trails from `roots`, and in which every newly revealed zero-count cell
      has all its neighbours revealed. */
  ghost predicate Cascade(g: Game, r: Game, roots: set<int>) {
    Expands(g, r) && Sourced(g, r, roots) && ClosedOn(r, Uncovered(g, r))
  }

  /** Reveal one cell, cascading from zero-count cells over their neighbours
      in visiting order. An already revealed cell is left alone. */
  function Reveal(g: Game, id: int): (r: Game)
    requires Valid(g) && InGrid(g.cfg, id)
    ensures Cascade(g, r, {id})
    ensures id in r.revealed
    ensures id in g.revealed ==> r == g
    ensures Calculated(g.cfg, g.cells) && !g.cells[id].Mine? ==> NoMineHit(g, r)
    decreases Hidden(g), 2, 0
  {
    if id in g.revealed then
      CascadeRefl(g, {id});
      g
    else
      RevealHidden(g, id)
  }

  /** Mark a hidden cell revealed and give its flag, if any, back to the counter. */
  function Uncover(g: Game, id: int): (u: Game)
    requires Valid(g) && InGrid(g.cfg, id) && id !in g.revealed
    ensures Valid(u) && Follows(g, u) && Uncovered(g, u) == {id}
    ensures u.flags == g.flags - {id}
    ensures u == g.(revealed := u.revealed, flags := u.flags, markersRemaining := u.markersRemaining)
    ensures Hidden(u) < Hidden(g)
    ensures Settled(g) ==> Settled(u)
  {
    assert id in AllCells(g.cfg);
    var uncovered := g.(revealed := g.revealed + {id});
    if id in uncovered.flags then
      uncovered.(flags := uncovered.flags - {id}, markersRemaining := uncovered.markersRemaining + 1)
    else uncovered
  }

  /** Reveal a hidden cell: a mine explodes and ends the game, a zero count
      cascades over the neighbours, any other count shows just this cell. */
  function RevealHidden(g: Game, id: int): (r: Game)
    requires Valid(g) && InGrid(g.cfg, id) && id !in g.revealed
    ensures Cascade(g, r, {id}) && id in r.revealed
    ensures Calculated(g.cfg, g.cells) && !g.cells[id].Mine? ==> NoMineHit(g, r)
    decreases Hidden(g), 1, 0
  {
    var u := Uncover(g, id);
    match g.cells[id]
    case Mine =>
      var r := GameOver(u.(exploded := u.exploded + {id}, disclosed := u.disclosed + {id}));
      MineStep(g, u, r, id);
      r
    case Count(n) =>
      if n == 0 then
        NeighbourhoodExact(g.cfg, id);
        CascadeIsSafe(g.cfg, g.cells, id);
        var r := RevealAll(u, Neighbours(g.cfg, id));
        UncoverExpands(g, u, id);
        ZeroStep(g, u, r, id);
        r
      else
        CountStep(g, u, id);
        u
  }

  /** Reveal each listed cell in turn. */
  function RevealAll(g: Game, ns: seq<int>): (r: Game)
    requires Valid(g) && forall k :: 0 <= k < |ns| ==> InGrid(g.cfg, ns[k])
    ensures Cascade(g, r, Elems(ns))
    ensures forall k :: 0 <= k < |ns| ==> ns[k] in r.revealed
    ensures Calculated(g.cfg, g.cells) && (forall k :: 0 <= k < |ns| ==> !g.cells[ns[k]].Mine?) ==> NoMineHit(g, r)
    decreases Hidden(g), 3, |ns|
  {
    if ns == [] then
      CascadeRefl(g, {});
      g
    else
      var first := Reveal(g, ns[0]);
      var r := RevealAll(first, ns[1..]);
      ListStep(g, first, r, ns);
      r
  }

  /** A click on a cell. Once the board is locked it is ignored. Otherwise the
      clock starts if no cell is revealed yet, the cell is revealed, and the
      game ends as won when the number of revealed cells equals the number of
      empty cells. The count includes an exploded mine. */
  function CheckCell(g: Game, id: int): (r: Game)
    requires Valid(g) && InGrid(g.cfg, id)
    ensures Valid(r) && r.cfg == g.cfg && r.cells == g.cells
    ensures g.revealed <= r.revealed
    ensures g.over ==> r == g
    ensures !g.over ==> id in r.revealed
  {
    if g.over then g
    else
      var started := if |g.revealed| == 0 then g.(timing := true) else g;
      var after := Reveal(started, id);
      if |after.revealed| == EmptyCells(g.cfg) then GameOver(after.(gameWon := true))
      else after
  }

  /** A right-click on a cell. Once the board is locked it is ignored. A flag
      is removed and given back to the counter; a hidden cell gets a flag,
      taken from the counter; a revealed cell is left alone. Only this cell's
      flag and the counter can change, and they change together. */
  function ToggleMarker(g: Game, id: int): (r: Game)
    requires Valid(g) && InGrid(g.cfg, id)
    ensures Valid(r)
    ensures r == g.(flags := r.flags, markersRemaining := r.markersRemaining)
    ensures r.flags - {id} == g.flags - {id}
    ensures r.markersRemaining - g.markersRemaining == |g.flags| - |r.flags|
    ensures g.flags !! g.revealed ==> r.flags !! r.revealed
    ensures g.over ==> r == g
    ensures !g.over && id in g.flags ==> id !in r.flags
    ensures !g.over && id !in g.revealed ==> (id in r.flags <==> id !in g.flags)
    ensures id in g.revealed && id !in g.flags ==> r == g
  {
    if g.over then g
    else if id in g.flags then g.(flags := g.flags - {id}, markersRemaining := g.markersRemaining + 1)
    else if id !in g.revealed then g.(flags := g.flags + {id}, markersRemaining := g.markersRemaining - 1)
    else g
  }

  // ---------------------------------------------------------------------------
  // Proof steps of the cascade

  lemma CascadeRefl(g: Game, roots: set<int>)
    requires Valid(g)
    ensures Cascade(g, g, roots)
  {
    assert Uncovered(g, g) == {};
  }

  /** A trail over cells hidden later was over cells hidden earlier. */
  lemma TrailMono(g: Game, m: Game, p: seq<int>)
    requires Valid(g) && Valid(m) && g.cfg == m.cfg && g.cells == m.cells && g.revealed <= m.revealed
    requires Trail(m, p)
    ensures Trail(g, p)
  {
  }

  /** A hidden zero-count cell extends a trail that starts next to it. */
  lemma TrailCons(g: Game, id: int, p: seq<int>)
    requires Valid(g) && InGrid(g.cfg, id) && id !in g.revealed && g.cells[id] == Count(0)
    requires Trail(g, p) && p[0] in Neighbours(g.cfg, id)
    ensures Trail(g, [id] + p)
  {
    var q := [id] + p;
    forall k | 0 <= k < |q| - 1
      ensures g.cells[q[k]] == Count(0) && q[k + 1] in Neighbours(g.cfg, q[k])
    {
      if k > 0 {
        assert q[k] == p[k - 1] && q[k + 1] == p[k];
      }
    }
  }

  /** Trails from the later roots, over cells hidden later, count from the earlier state. */
  lemma SourcedTrans(g: Game, m: Game, r: Game, a: set<int>, b: set<int>)
    requires Expands(g, m) && Expands(m, r)
    requires Sourced(g, m, a) && Sourced(m, r, b)
    ensures Sourced(g, r, a + b)
  {
    forall j | j in Uncovered(g, r)
      ensures Reached(g, a + b, j)
    {
      if j in Uncovered(g, m) {
        var p :| Trail(g, p) && p[0] in a && p[|p| - 1] == j;
        assert p[0] in a + b;
      } else {
        assert j in Uncovered(m, r);
        var p :| Trail(m, p) && p[0] in b && p[|p| - 1] == j;
        TrailMono(g, m, p);
        assert p[0] in a + b;
      }
    }
  }

  lemma FollowsTrans(g: Game, m: Game, r: Game)
    requires Follows(g, m) && Follows(m, r)
    ensures Follows(g, r)
  {
    assert m.flags <= g.flags;
    assert MineSet(m.cells) == MineSet(g.cells);
    forall x | x in r.wrongFlags - g.wrongFlags
      ensures x in g.flags - MineSet(g.cells)
    {
      if x !in m.wrongFlags {
        assert x in r.wrongFlags - m.wrongFlags;
      }
    }
    forall x | x in r.exploded - g.exploded
      ensures x in (r.revealed - g.revealed) * MineSet(g.cells)
    {
      if x in m.exploded {
        assert x in (m.revealed - g.revealed) * MineSet(g.cells);
      } else {
        assert x in (r.revealed - m.revealed) * MineSet(m.cells);
      }
    }
  }

  /** Two expansions in a row form one expansion. */
  lemma ExpandsTrans(g: Game, m: Game, r: Game)
    requires Expands(g, m) && Expands(m, r)
    ensures Expands(g, r)
  {
    FollowsTrans(g, m, r);
    ExplodedTrans(g, m, r);
    MineHitSplit(g, m, r);
    if NoMineHit(g, r) {
      NoMineSplit(g, m, r);
      FrameTrans(g, m, r);
    }
  }

  lemma ExplodedTrans(g: Game, m: Game, r: Game)
    requires Follows(g, m) && Follows(m, r)
    requires Uncovered(g, m) * MineSet(g.cells) <= m.exploded
    requires Uncovered(m, r) * MineSet(m.cells) <= r.exploded
    ensures Uncovered(g, r) * MineSet(g.cells) <= r.exploded
  {
    assert Uncovered(g, r) == Uncovered(g, m) + Uncovered(m, r);
  }

  /** A mine hit over two steps is a mine hit in one of them. */
  lemma MineHitSplit(g: Game, m: Game, r: Game)
    requires Follows(g, m) && Follows(m, r)
    ensures !NoMineHit(g, r) ==> !NoMineHit(g, m) || !NoMineHit(m, r)
  {
    assert Uncovered(g, r) == Uncovered(g, m) + Uncovered(m, r);
  }

  lemma NoMineSplit(g: Game, m: Game, r: Game)
    requires Follows(g, m) && Follows(m, r) && NoMineHit(g, r)
    ensures NoMineHit(g, m) && NoMineHit(m, r)
  {
    assert Uncovered(g, r) == Uncovered(g, m) + Uncovered(m, r);
  }

  /** Two steps that change only the reveal marks change only the reveal marks. */
  lemma FrameTrans(g: Game, m: Game, r: Game)
    requires m == g.(revealed := m.revealed, flags := m.flags, markersRemaining := m.markersRemaining)
    requires r == m.(revealed := r.revealed, flags := r.flags, markersRemaining := r.markersRemaining)
    ensures r == g.(revealed := r.revealed, flags := r.flags, markersRemaining := r.markersRemaining)
  {
  }

  lemma ClosedTrans(g: Game, m: Game, r: Game)
    requires Valid(m) && Valid(r) && Follows(g, m) && Follows(m, r)
    requires ClosedOn(m, Uncovered(g, m)) && ClosedOn(r, Uncovered(m, r))
    ensures ClosedOn(r, Uncovered(g, r))
  {
    forall j | j in Uncovered(g, r) && 0 <= j < |r.cells| && r.cells[j] == Count(0)
      ensures forall k :: k in Neighbours(r.cfg, j) ==> k in r.revealed
    {
      if j in Uncovered(g, m) {
        assert forall k :: k in Neighbours(m.cfg, j) ==> k in m.revealed;
      }
    }
  }

  lemma ListStep(g: Game, first: Game, r: Game, ns: seq<int>)
    requires Valid(g) && |ns| > 0 && forall k :: 0 <= k < |ns| ==> InGrid(g.cfg, ns[k])
    requires Cascade(g, first, {ns[0]}) && ns[0] in first.revealed
    requires Calculated(g.cfg, g.cells) && !g.cells[ns[0]].Mine? ==> NoMineHit(g, first)
    requires Cascade(first, r, Elems(ns[1..]))
    requires forall k :: 0 <= k < |ns| - 1 ==> ns[1..][k] in r.revealed
    requires Calculated(first.cfg, first.cells) && (forall k :: 0 <= k < |ns| - 1 ==> !first.cells[ns[1..][k]].Mine?) ==> NoMineHit(first, r)
    ensures Cascade(g, r, Elems(ns))
    ensures forall k :: 0 <= k < |ns| ==> ns[k] in r.revealed
    ensures Calculated(g.cfg, g.cells) && (forall k :: 0 <= k < |ns| ==> !g.cells[ns[k]].Mine?) ==> NoMineHit(g, r)
  {
    ExpandsTrans(g, first, r);
    SourcedTrans(g, first, r, {ns[0]}, Elems(ns[1..]));
    ClosedTrans(g, first, r);
    ElemsCons(ns);
    forall k | 1 <= k < |ns|
      ensures ns[k] in r.revealed
    {
      assert ns[k] == ns[1..][k - 1];
    }
    if Calculated(g.cfg, g.cells) && (forall k :: 0 <= k < |ns| ==> !g.cells[ns[k]].Mine?) {
      assert forall k :: 0 <= k < |ns| - 1 ==> ns[1..][k] == ns[k + 1];
      NoMineTrans(g, first, r);
    }
  }

  lemma NoMineTrans(g: Game, m: Game, r: Game)
    requires Follows(g, m) && Follows(m, r)
    requires NoMineHit(g, m) && NoMineHit(m, r)
    ensures NoMineHit(g, r)
  {
    assert Uncovered(g, r) == Uncovered(g, m) + Uncovered(m, r);
  }

  lemma MineStep(g: Game, u: Game, r: Game, id: int)
    requires Valid(g) && InGrid(g.cfg, id) && id !in g.revealed && g.cells[id].Mine?
    requires Valid(u) && Follows(g, u) && Uncovered(g, u) == {id}
    requires u == g.(revealed := u.revealed, flags := u.flags, markersRemaining := u.markersRemaining)
    requires r == GameOver(u.(exploded := u.exploded + {id}, disclosed := u.disclosed + {id}))
    ensures Cascade(g, r, {id}) && id in r.revealed
  {
    assert id in MineSet(g.cells);
    assert Uncovered(g, r) == {id};
    assert Trail(g, [id]);
  }

  lemma CountStep(g: Game, u: Game, id: int)
    requires Valid(g) && InGrid(g.cfg, id) && id !in g.revealed && g.cells[id].Count? && g.cells[id].n != 0
    requires Valid(u) && Follows(g, u) && Uncovered(g, u) == {id}
    requires u == g.(revealed := u.revealed, flags := u.flags, markersRemaining := u.markersRemaining)
    requires Settled(g) ==> Settled(u)
    ensures Cascade(g, u, {id}) && id in u.revealed && NoMineHit(g, u)
  {
    assert id !in MineSet(g.cells);
    assert Trail(g, [id]);
  }

  lemma ZeroStep(g: Game, u: Game, r: Game, id: int)
    requires Valid(g) && InGrid(g.cfg, id) && id !in g.revealed && g.cells[id] == Count(0)
    requires Expands(g, u) && NoMineHit(g, u) && u.revealed == g.revealed + {id}
    requires Cascade(u, r, Elems(Neighbours(g.cfg, id)))
    requires forall k :: 0 <= k < |Neighbours(g.cfg, id)| ==> Neighbours(g.cfg, id)[k] in r.revealed
    requires Calculated(g.cfg, g.cells) ==> NoMineHit(u, r)
    ensures Cascade(g, r, {id}) && id in r.revealed
    ensures Calculated(g.cfg, g.cells) ==> NoMineHit(g, r)
  {
    ExpandsTrans(g, u, r);
    AllListed(Neighbours(g.cfg, id), r.revealed);
    ZeroSourced(g, u, r, id);
    ClosedZero(g, u, r, id);
    if Calculated(g.cfg, g.cells) {
      NoMineTrans(g, u, r);
    }
  }

  /** Uncovering a cell without a mine is an expansion that hits no mine. */
  lemma UncoverExpands(g: Game, u: Game, id: int)
    requires Valid(g) && InGrid(g.cfg, id) && id !in g.revealed && !g.cells[id].Mine?
    requires Valid(u) && Follows(g, u) && Uncovered(g, u) == {id}
    requires u == g.(revealed := u.revealed, flags := u.flags, markersRemaining := u.markersRemaining)
    requires Settled(g) ==> Settled(u)
    ensures Expands(g, u) && NoMineHit(g, u)
  {
    assert id !in MineSet(g.cells);
  }

  /** Every entry of `s` lies in `t`, stated by index and by membership. */
  lemma AllListed(s: seq<int>, t: set<int>)
    requires forall k :: 0 <= k < |s| ==> s[k] in t
    ensures forall x :: x in s ==> x in t
  {
    forall x | x in s
      ensures x in t
    {
      var a :| 0 <= a < |s| && s[a] == x;
    }
  }

  /** Each cell the neighbours' cascade uncovers is reached from the zero cell
      through one of its neighbours. */
  lemma ZeroSourced(g: Game, u: Game, r: Game, id: int)
    requires Valid(g) && Valid(u) && InGrid(g.cfg, id) && id !in g.revealed && g.cells[id] == Count(0)
    requires u.cfg == g.cfg && u.cells == g.cells && u.revealed == g.revealed + {id}
    requires Sourced(u, r, Elems(Neighbours(g.cfg, id)))
    ensures Sourced(g, r, {id})
  {
    forall j | j in Uncovered(g, r)
      ensures Reached(g, {id}, j)
    {
      if j == id {
        assert Trail(g, [id]);
      } else {
        assert j in Uncovered(u, r);
        ZeroReaches(g, u, id, j);
      }
    }
  }

  /** A cell reached from a neighbour of a hidden zero cell, once that cell is
      revealed, is reached from the zero cell itself. */
  lemma ZeroReaches(g: Game, u: Game, id: int, j: int)
    requires Valid(g) && Valid(u) && InGrid(g.cfg, id) && id !in g.revealed && g.cells[id] == Count(0)
    requires u.cfg == g.cfg && u.cells == g.cells && u.revealed == g.revealed + {id}
    requires Reached(u, Elems(Neighbours(g.cfg, id)), j)
    ensures Reached(g, {id}, j)
  {
    var p :| Trail(u, p) && p[0] in Elems(Neighbours(g.cfg, id)) && p[|p| - 1] == j;
    TrailMono(g, u, p);
    TrailCons(g, id, p);
    assert ([id] + p)[|[id] + p| - 1] == j;
  }

  lemma ClosedZero(g: Game, u: Game, r: Game, id: int)
    requires Valid(g) && Valid(u) && Valid(r) && InGrid(g.cfg, id) && g.cells[id] == Count(0)
    requires r.cfg == g.cfg && r.cells == g.cells && u.revealed == g.revealed + {id}
    requires ClosedOn(r, Uncovered(u, r))
    requires forall k :: k in Neighbours(g.cfg, id) ==> k in r.revealed
    ensures ClosedOn(r, Uncovered(g, r))
  {
    forall j | j in Uncovered(g, r) && 0 <= j < |r.cells| && r.cells[j] == Count(0)
      ensures forall k :: k in Neighbours(r.cfg, j) ==> k in r.revealed
    {
      if j != id {
        assert j in Uncovered(u, r);
      }
    }
  }

  /** The cascade from a zero-count cell only meets cells without a mine. */
  lemma CascadeIsSafe(c: Config, cells: seq<Content>, id: int)
    requires WellSized(c) && |cells| == Size(c) && InGrid(c, id) && cells[id] == Count(0)
    ensures Calculated(c, cells) ==>
              forall k :: 0 <= k < |Neighbours(c, id)| ==> InGrid(c, Neighbours(c, id)[k]) && !cells[Neighbours(c, id)[k]].Mine?
  {
    NeighbourhoodExact(c, id);
    if Calculated(c, cells) {
      ZeroHasSafeNeighbours(c, cells, id);
      forall k | 0 <= k < |Neighbours(c, id)|
        ensures InGrid(c, Neighbours(c, id)[k]) && !cells[Neighbours(c, id)[k]].Mine?
      {
        assert Neighbours(c, id)[k] in Neighbours(c, id);
      }
    }
  }

  // ---------------------------------------------------------------------------
  // The cascade is the flood fill

  /** Along a trail that starts at a revealed cell, a finished cascade has
      revealed every cell. */
  lemma {:induction false} TrailRevealed(g: Game, r: Game, p: seq<int>, k: nat)
    requires Valid(g) && Valid(r) && Follows(g, r) && ClosedOn(r, Uncovered(g, r))
    requires Trail(g, p) && p[0] in r.revealed && k < |p|
    ensures p[k] in r.revealed
  {
    if k > 0 {
      TrailRevealed(g, r, p, k - 1);
      assert p[k - 1] in Uncovered(g, r);
    }
  }

  /** A finished cascade from one hidden cell reveals exactly the cells
      reached by a trail from it: every such cell, and nothing else that was
      hidden. */
  lemma CascadeExact(g: Game, r: Game, id: int)
    requires Valid(g) && InGrid(g.cfg, id) && id !in g.revealed
    requires Cascade(g, r, {id}) && id in r.revealed
    ensures forall j :: j in r.revealed <==> j in g.revealed || Reached(g, {id}, j)
  {
    forall j | Reached(g, {id}, j)
      ensures j in r.revealed
    {
      var p :| Trail(g, p) && p[0] in {id} && p[|p| - 1] == j;
      TrailRevealed(g, r, p, |p| - 1);
    }
  }

  /** Clicking a hidden cell reveals exactly the cells reached by a trail from it. */
  lemma RevealExact(g: Game, id: int)
    requires Valid(g) && InGrid(g.cfg, id) && id !in g.revealed
    ensures forall j :: j in Reveal(g, id).revealed <==> j in g.revealed || Reached(g, {id}, j)
  {
    CascadeExact(g, Reveal(g, id), id);
  }

  /** Revealing a hidden mine always explodes it and locks the board, whatever
      was marked before. */
  lemma RevealMineLocks(g: Game, id: int)
    requires Valid(g) && InGrid(g.cfg, id) && id !in g.revealed && g.cells[id].Mine?
    ensures Reveal(g, id).over && id in Reveal(g, id).exploded
  {
    assert id in Uncovered(g, Reveal(g, id)) * MineSet(g.cells);
  }
}

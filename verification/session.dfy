/**
  A game session from start to finish: a fresh board, the invariant every
  reachable session keeps, and what clicks and markers do to it.
 */
module Session {
  import opened Grid
  import opened Minefield
  import opened Engine

  /** What holds of every session a player can reach. */
  ghost predicate Inv(g: Game) {
    && Valid(g)
    && Calculated(g.cfg, g.cells)
    && |MineSet(g.cells)| == g.cfg.mines
    && g.flags !! g.revealed
    && g.markersRemaining == g.cfg.mines - |g.flags|
    && ClosedOn(g, g.revealed)
    && g.revealed * MineSet(g.cells) <= g.exploded
    && (g.exploded != {} ==> g.over)
    && (g.gameWon ==> g.over && |g.revealed| == EmptyCells(g.cfg))
    && Settled(g)
    && g.wrongFlags !! MineSet(g.cells)
    && g.disclosed <= MineSet(g.cells)
    && (!g.over ==> g.wrongFlags == {} && g.disclosed == {})
    && g.exploded <= g.revealed * MineSet(g.cells)
    && (g.over ==> g.wrongFlags == g.flags - MineSet(g.cells))
  }

  /** A fresh session on a finished board: nothing revealed or flagged, all
      markers available, clock stopped. */
  function Start(c: Config, cells: seq<Content>): (g: Game)
    requires WellSized(c) && |cells| == Size(c)
    ensures Valid(g)
    ensures Calculated(c, cells) && |MineSet(cells)| == c.mines ==> Inv(g)
  {
    Game(c, cells, {}, {}, c.mines, false, false, false, {}, {}, {})
  }

  /** Start a new game: place the mines from the draws, count the neighbours,
      and begin with a clean session. There is no session when the draws hold
      fewer distinct cells than there are mines. */
  method NewGame(c: Config, draws: seq<int>) returns (g: Option<Game>)
    requires WellSized(c)
    requires forall k :: 0 <= k < |draws| ==> InGrid(c, draws[k])
    ensures g.Some? <==> c.mines <= |Elems(draws)|
    ensures g.Some? ==> Inv(g.value)
    ensures g.Some? ==> g.value.cfg == c && MineSet(g.value.cells) <= Elems(draws)
    ensures g.Some? ==> g.value.revealed == {} && g.value.flags == {} && g.value.markersRemaining == c.mines
    ensures g.Some? ==> !g.value.over && !g.value.gameWon && !g.value.timing
  {
    var placed, used := PopulateMinefield(c, draws);
    if placed.None? {
      return None;
    }
    ElemsPrefix(draws, used);
    var cells := CalculateMinefield(c, placed.value);
    g := Some(Start(c, cells));
  }

  // ---------------------------------------------------------------------------
  // Player actions

  datatype Action = Click(id: int) | Mark(id: int)

  function Apply(g: Game, a: Action): (r: Game)
    requires Valid(g) && InGrid(g.cfg, a.id)
    ensures Valid(r) && r.cfg == g.cfg
  {
    match a
    case Click(id) => CheckCell(g, id)
    case Mark(id) => ToggleMarker(g, id)
  }

  /** Play a sequence of clicks and right-clicks. */
  function Play(g: Game, acts: seq<Action>): Game
    requires Valid(g) && forall k :: 0 <= k < |acts| ==> InGrid(g.cfg, acts[k].id)
    decreases |acts|
  {
    if acts == [] then g
    else
      var next := Apply(g, acts[0]);
      assert forall k :: 0 <= k < |acts[1..]| ==> acts[1..][k] == acts[k + 1];
      Play(next, acts[1..])
  }

  // ---------------------------------------------------------------------------
  // The invariant is kept

  lemma ClosedGrow(g: Game, r: Game)
    requires Valid(g) && Valid(r) && Follows(g, r)
    requires ClosedOn(g, g.revealed) && ClosedOn(r, r.revealed - g.revealed)
    ensures ClosedOn(r, r.revealed)
  {
    forall j | j in r.revealed && 0 <= j < |r.cells| && r.cells[j] == Count(0)
      ensures forall k :: k in Neighbours(r.cfg, j) ==> k in r.revealed
    {
      if j in g.revealed {
        assert forall k :: k in Neighbours(g.cfg, j) ==> k in g.revealed;
      }
    }
  }

  /** Revealing keeps the invariant, apart from the win bookkeeping done by the click. */
  lemma RevealKeepsInv(g: Game, id: int)
    requires Inv(g) && !g.over && InGrid(g.cfg, id)
    ensures Inv(Reveal(g, id))
  {
    var r := Reveal(g, id);
    ClosedGrow(g, r);
    if g.cells[id].Mine? && id !in g.revealed {
      RevealMine(g, id);
    }
    assert r.revealed * MineSet(r.cells) <= (g.revealed * MineSet(g.cells)) + (Uncovered(g, r) * MineSet(g.cells));
  }

  lemma CheckCellKeepsInv(g: Game, id: int)
    requires Inv(g) && InGrid(g.cfg, id)
    ensures Inv(CheckCell(g, id))
  {
    if !g.over {
      var started := if |g.revealed| == 0 then g.(timing := true) else g;
      assert Inv(started);
      RevealKeepsInv(started, id);
      var a := Reveal(started, id);
      if |a.revealed| == EmptyCells(g.cfg) {
        WinKeepsInv(a);
      }
      assert CheckCell(g, id) == if |a.revealed| == EmptyCells(g.cfg) then GameOver(a.(gameWon := true)) else a;
    }
  }

  /** Declaring the win when the count is reached keeps the invariant. */
  lemma WinKeepsInv(a: Game)
    requires Inv(a) && |a.revealed| == EmptyCells(a.cfg)
    ensures Inv(GameOver(a.(gameWon := true)))
  {
    var w := GameOver(a.(gameWon := true));
    assert w.disclosed == a.disclosed;
    assert w.wrongFlags == a.wrongFlags + (a.flags - MineSet(a.cells));
  }

  lemma ToggleMarkerKeepsInv(g: Game, id: int)
    requires Inv(g) && InGrid(g.cfg, id)
    ensures Inv(ToggleMarker(g, id))
  {
  }

  /** Every reachable session satisfies the invariant; the board never
      changes and revealed cells stay revealed. */
  lemma {:induction false} PlayKeepsInv(g: Game, acts: seq<Action>)
    requires Inv(g) && forall k :: 0 <= k < |acts| ==> InGrid(g.cfg, acts[k].id)
    ensures Inv(Play(g, acts))
    ensures Play(g, acts).cells == g.cells && Play(g, acts).cfg == g.cfg
    ensures g.revealed <= Play(g, acts).revealed
    decreases |acts|
  {
    if acts != [] {
      var next := Apply(g, acts[0]);
      match acts[0] {
        case Click(id) => CheckCellKeepsInv(g, id);
        case Mark(id) => ToggleMarkerKeepsInv(g, id);
      }
      assert forall k :: 0 <= k < |acts| - 1 ==> acts[1..][k] == acts[k + 1];
      PlayKeepsInv(next, acts[1..]);
    }
  }

  /** Once the game is over, no click or right-click changes anything. */
  lemma {:induction false} PlayAfterGameOver(g: Game, acts: seq<Action>)
    requires Valid(g) && g.over && forall k :: 0 <= k < |acts| ==> InGrid(g.cfg, acts[k].id)
    ensures Play(g, acts) == g
    decreases |acts|
  {
    if acts != [] {
      assert forall k :: 0 <= k < |acts| - 1 ==> acts[1..][k] == acts[k + 1];
      PlayAfterGameOver(Apply(g, acts[0]), acts[1..]);
    }
  }

  // ---------------------------------------------------------------------------
  // Winning and losing

  /** After a click on a live board, the game is won exactly when the number
      of revealed cells equals the number of empty cells, and a won game is
      locked. */
  lemma CheckCellWin(g: Game, id: int)
    requires Inv(g) && !g.over && InGrid(g.cfg, id)
    ensures CheckCell(g, id).gameWon <==> |CheckCell(g, id).revealed| == EmptyCells(g.cfg)
    ensures CheckCell(g, id).gameWon ==> CheckCell(g, id).over
  {
  }

  /** Clicking a hidden mine on a live board reveals only that cell, explodes
      it, locks the board, discloses every mine and marks every flag on a
      non-mine cell. */
  lemma CheckCellLoss(g: Game, id: int)
    requires Inv(g) && !g.over && InGrid(g.cfg, id) && g.cells[id].Mine? && id !in g.revealed
    ensures CheckCell(g, id).over
    ensures CheckCell(g, id).exploded == {id}
    ensures CheckCell(g, id).revealed == g.revealed + {id}
    ensures CheckCell(g, id).disclosed == MineSet(g.cells)
    ensures CheckCell(g, id).wrongFlags == CheckCell(g, id).flags - MineSet(g.cells)
  {
    var started := if |g.revealed| == 0 then g.(timing := true) else g;
    RevealMine(started, id);
    var a := Reveal(started, id);
    RewinKeepsMarks(a);
    var r := CheckCell(g, id);
    assert r == a || r == GameOver(a.(gameWon := true));
  }

  /** Revealing a hidden mine before the game has ended. */
  lemma RevealMine(g: Game, id: int)
    requires Valid(g) && InGrid(g.cfg, id) && id !in g.revealed && g.cells[id].Mine?
    requires !g.gameWon && g.exploded == {} && g.disclosed == {} && g.wrongFlags == {}
    ensures Reveal(g, id).over
    ensures Reveal(g, id).revealed == g.revealed + {id}
    ensures Reveal(g, id).exploded == {id}
    ensures Reveal(g, id).disclosed == MineSet(g.cells)
    ensures Reveal(g, id).wrongFlags == Reveal(g, id).flags - MineSet(g.cells)
  {
    var u := Uncover(g, id);
    MineHit(g, id);
    ExplodeMarks(u, id);
  }

  lemma MineHit(g: Game, id: int)
    requires Valid(g) && InGrid(g.cfg, id) && id !in g.revealed && g.cells[id].Mine?
    ensures Reveal(g, id) == GameOver(Uncover(g, id).(exploded := Uncover(g, id).exploded + {id},
                                                      disclosed := Uncover(g, id).disclosed + {id}))
  {
  }

  lemma ExplodeMarks(u: Game, id: int)
    requires Valid(u) && InGrid(u.cfg, id) && u.cells[id].Mine?
    requires !u.gameWon && u.exploded == {} && u.disclosed == {} && u.wrongFlags == {}
    ensures GameOver(u.(exploded := u.exploded + {id}, disclosed := u.disclosed + {id})).exploded == {id}
    ensures GameOver(u.(exploded := u.exploded + {id}, disclosed := u.disclosed + {id})).disclosed == MineSet(u.cells)
    ensures GameOver(u.(exploded := u.exploded + {id}, disclosed := u.disclosed + {id})).wrongFlags == u.flags - MineSet(u.cells)
  {
    assert id in MineSet(u.cells);
  }

  /** Ending an ended game again as won adds no marks. */
  lemma RewinKeepsMarks(a: Game)
    requires Valid(a) && a.over && a.wrongFlags == a.flags - MineSet(a.cells)
    ensures GameOver(a.(gameWon := true)) == a.(gameWon := true, timing := false)
  {
  }

  /** Clicking a cell without a mine never reveals a mine: the cascade stays
      on safe cells, nothing explodes, no mine is disclosed, and the board is
      locked only by a win. */
  lemma CheckCellSafe(g: Game, id: int)
    requires Inv(g) && !g.over && InGrid(g.cfg, id) && !g.cells[id].Mine?
    ensures CheckCell(g, id).revealed * MineSet(g.cells) == {}
    ensures CheckCell(g, id).exploded == {}
    ensures CheckCell(g, id).disclosed == g.disclosed
    ensures CheckCell(g, id).over <==> CheckCell(g, id).gameWon
  {
  }

  /** A won game in which no mine exploded has every empty cell revealed and
      no mine revealed. */
  lemma WinRevealsEverySafeCell(g: Game)
    requires Inv(g) && g.gameWon && g.exploded == {}
    ensures g.revealed == AllCells(g.cfg) - MineSet(g.cells)
  {
    var safe := AllCells(g.cfg) - MineSet(g.cells);
    assert g.revealed <= safe;
    assert MineSet(g.cells) <= AllCells(g.cfg);
    assert |safe| == |AllCells(g.cfg)| - |MineSet(g.cells)| by {
      assert AllCells(g.cfg) == safe + MineSet(g.cells);
      assert safe * MineSet(g.cells) == {};
    }
    SubsetCard(g.revealed, safe);
  }

  /** The win test counts the exploded mine as a revealed cell: on a two-cell
      board with one mine, clicking the mine first both loses and wins. */
  lemma WinAfterLoss()
    ensures Inv(Start(Config(2, 1, 1), [Mine, Count(1)]))
    ensures CheckCell(Start(Config(2, 1, 1), [Mine, Count(1)]), 0).gameWon
    ensures CheckCell(Start(Config(2, 1, 1), [Mine, Count(1)]), 0).exploded == {0}
  {
    var c := Config(2, 1, 1);
    var cells := [Mine, Count(1)];
    assert MineSet(cells) == {0};
    assert Adjacent(c, 1, 0);
    assert MinesAround(c, cells, 1) == {0};
    var g := Start(c, cells);
    assert Reveal(g, 0) == RevealHidden(g, 0);
  }

  // ---------------------------------------------------------------------------
  // Markers

  /** Toggling a marker twice on a cell restores the session. */
  lemma ToggleTwice(g: Game, id: int)
    requires Valid(g) && InGrid(g.cfg, id) && g.flags !! g.revealed
    ensures ToggleMarker(ToggleMarker(g, id), id) == g
  {
    if !g.over && id in g.flags {
      assert g.flags - {id} + {id} == g.flags;
    }
    if !g.over && id !in g.flags && id !in g.revealed {
      assert g.flags + {id} - {id} == g.flags;
    }
  }

  /** The counter is not bounded below: with no mines on the board, one flag
      takes it to minus one, and the invariant still holds. */
  lemma MarkersCanGoNegative()
    ensures Inv(Start(Config(1, 1, 0), [Count(0)]))
    ensures Inv(ToggleMarker(Start(Config(1, 1, 0), [Count(0)]), 0))
    ensures ToggleMarker(Start(Config(1, 1, 0), [Count(0)]), 0).markersRemaining == -1
  {
    var c := Config(1, 1, 0);
    var cells := [Count(0)];
    assert MineSet(cells) == {};
    assert MinesAround(c, cells, 0) == {};
  }

  // ---------------------------------------------------------------------------
  // Single reveals

  /** A hidden cell with a non-zero count is revealed alone, without cascade. */
  lemma RevealCountOnly(g: Game, id: int)
    requires Valid(g) && InGrid(g.cfg, id) && id !in g.revealed
    requires g.cells[id].Count? && g.cells[id].n > 0
    ensures Reveal(g, id).revealed == g.revealed + {id}
    ensures Reveal(g, id).flags == g.flags - {id}
    ensures !Reveal(g, id).over || g.over
  {
    assert Reveal(g, id) == Uncover(g, id);
  }

  /** Revealing a flagged cell removes the flag and gives it back to the counter. */
  lemma RevealClearsFlag(g: Game, id: int)
    requires Valid(g) && InGrid(g.cfg, id) && id in g.flags && id !in g.revealed
    ensures id !in Reveal(g, id).flags
    ensures Uncover(g, id).markersRemaining == g.markersRemaining + 1
  {
  }

  /** The first click on a live board starts the clock, unless it ends the game. */
  lemma FirstClickStartsClock(g: Game, id: int)
    requires Valid(g) && InGrid(g.cfg, id) && !g.over && g.revealed == {}
    ensures !CheckCell(g, id).over ==> CheckCell(g, id).timing
  {
    var started := g.(timing := true);
    var a := Reveal(started, id);
    assert CheckCell(g, id) == a || CheckCell(g, id).over;
  }
}

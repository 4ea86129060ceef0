/**
 * The page's board: a table of cells that the methods below update in
 * place, and the `running` flag that the page loop reads.  Cells are
 * stored as their `active` flag, `cells[x, y]`, for x below cellsWidth
 * and y below cellsHeight; a cell's own coordinates are its position in
 * the table.  Everything the source draws on the canvas is left out.
 */
module Engine {
  import Rules

  class Field {
    /** Size of the drawing surface in pixels. */
    const width: nat
    const height: nat
    /** Pixels per cell side. */
    const cellSize: nat := 8
    /** Size of the board in cells. */
    const cellsWidth: nat
    const cellsHeight: nat

    var cells: array2<bool>
    var running: bool
    /** The cells as a value, x-major: the public view of the table. */
    ghost var board: Rules.Grid

    ghost predicate Valid()
      reads this`cells, this`board, cells
    {
      && cells.Length0 == cellsWidth && cells.Length1 == cellsHeight
      && Rules.IsGrid(board, cellsWidth, cellsHeight)
      && forall x, y :: 0 <= x < cellsWidth && 0 <= y < cellsHeight ==> board[x][y] == cells[x, y]
    }

    /** The board for a surface of width x height pixels: whole cells only, all dead, stopped. */
    constructor (width: nat, height: nat)
      ensures this.width == width && this.height == height
      ensures cellsWidth == width / cellSize && cellsHeight == height / cellSize
      ensures Valid() && fresh(cells) && !running
      ensures board == Rules.Dead(cellsWidth, cellsHeight)
    {
      this.width := width;
      this.height := height;
      cellsWidth := width / 8;
      cellsHeight := height / 8;
      running := false;
      var table := StartCells(width / 8, height / 8);
      cells := table;
      board := Rules.Dead(width / 8, height / 8);
    }

    /** A fresh cellsWidth x cellsHeight table whose every cell is dead. */
    static method StartCells(cellsWidth: nat, cellsHeight: nat) returns (cells: array2<bool>)
      ensures fresh(cells)
      ensures cells.Length0 == cellsWidth && cells.Length1 == cellsHeight
      ensures forall x, y :: 0 <= x < cellsWidth && 0 <= y < cellsHeight ==> !cells[x, y]
    {
      cells := new bool[cellsWidth, cellsHeight];
      for i := 0 to cellsWidth
        invariant forall x, y :: 0 <= x < i && 0 <= y < cellsHeight ==> !cells[x, y]
      {
        for j := 0 to cellsHeight
          invariant forall x, y :: 0 <= x < i && 0 <= y < cellsHeight ==> !cells[x, y]
          invariant forall y :: 0 <= y < j ==> !cells[i, y]
        {
          cells[i, j] := false;
        }
      }
    }

    /** The state of cell (x, y). */
    method GetCell(x: int, y: int) returns (active: bool)
      requires Valid() && 0 <= x < cellsWidth && 0 <= y < cellsHeight
      ensures active == board[x][y]
    {
      active := cells[x, y];
    }

    /** Set cell (x, y) to status; no other cell changes. */
    method SetCell(x: int, y: int, status: bool)
      requires Valid() && 0 <= x < cellsWidth && 0 <= y < cellsHeight
      modifies this`board, cells
      ensures Valid() && board == Rules.With(old(board), x, y, status)
    {
      cells[x, y] := status;
      board := Rules.With(board, x, y, status);
    }

    /**
     * Number of live cells around (x, y), with the source's edge guards:
     * positions off the board are skipped, so the board does not wrap.
     */
    method SurroundingCount(x: int, y: int) returns (count: nat)
      requires Valid() && 0 <= x < cellsWidth && 0 <= y < cellsHeight
      ensures count == Rules.Neighbours(board, x, y)
    {
      Rules.NeighboursUnrolled(board, x, y);
      assert forall u, v :: Rules.Alive(board, u, v) <==> 0 <= u < cellsWidth && 0 <= v < cellsHeight && cells[u, v];
      count := 0;
      if x > 0 {
        if y > 0 {
          count := count + Rules.Bit(cells[x - 1, y - 1]);
        }
        count := count + Rules.Bit(cells[x - 1, y]);
        if y < cellsHeight - 1 {
          count := count + Rules.Bit(cells[x - 1, y + 1]);
        }
      }
      if x < cellsWidth - 1 {
        if y > 0 {
          count := count + Rules.Bit(cells[x + 1, y - 1]);
        }
        count := count + Rules.Bit(cells[x + 1, y]);
        if y < cellsHeight - 1 {
          count := count + Rules.Bit(cells[x + 1, y + 1]);
        }
      }
      if y > 0 {
        count := count + Rules.Bit(cells[x, y - 1]);
      }
      if y < cellsHeight - 1 {
        count := count + Rules.Bit(cells[x, y + 1]);
      }
    }

    /**
     * First phase of a step: walk the board x-major and list every cell
     * that should die or be born, without touching the board.  Each cell is
     * listed once, and exactly the cells that should flip are listed.
     */
    method CollectChanges() returns (toChange: seq<(int, int)>)
      requires Valid()
      ensures Rules.NoDup(toChange)
      ensures forall k :: 0 <= k < |toChange| ==>
        0 <= toChange[k].0 < cellsWidth && 0 <= toChange[k].1 < cellsHeight
      ensures forall x, y :: 0 <= x < cellsWidth && 0 <= y < cellsHeight ==>
        ((x, y) in toChange <==> Rules.ShouldFlip(board, x, y))
    {
      ghost var g := board;
      toChange := [];
      var i := 0;
      while i < cellsWidth
        invariant 0 <= i <= cellsWidth
        invariant Rules.NoDup(toChange)
        invariant forall k :: 0 <= k < |toChange| ==> 0 <= toChange[k].0 < i && 0 <= toChange[k].1 < cellsHeight
        invariant forall x, y :: 0 <= x < i && 0 <= y < cellsHeight ==>
          ((x, y) in toChange <==> Rules.ShouldFlip(g, x, y))
        invariant forall x, y :: i <= x < cellsWidth && 0 <= y < cellsHeight ==> (x, y) !in toChange
      {
        var j := 0;
        while j < cellsHeight
          invariant 0 <= j <= cellsHeight
          invariant Rules.NoDup(toChange)
          invariant forall k :: 0 <= k < |toChange| ==>
            0 <= toChange[k].0 <= i && 0 <= toChange[k].1 < cellsHeight &&
            (toChange[k].0 == i ==> toChange[k].1 < j)
          invariant forall x, y :: 0 <= x < i && 0 <= y < cellsHeight ==>
            ((x, y) in toChange <==> Rules.ShouldFlip(g, x, y))
          invariant forall y :: 0 <= y < j ==> ((i, y) in toChange <==> Rules.ShouldFlip(g, i, y))
          invariant forall x, y :: (i < x < cellsWidth || (x == i && j <= y)) && 0 <= y < cellsHeight ==>
            (x, y) !in toChange
        {
          var neighbours := SurroundingCount(i, j);
          var active := cells[i, j];
          if Rules.Dies(active, neighbours) || Rules.Born(active, neighbours) {
            toChange := toChange + [(i, j)];
          }
          j := j + 1;
        }
        i := i + 1;
      }
    }

    /**
     * One generation: collect the cells to flip from the untouched board,
     * then flip them all.  The new board is the next generation of the old
     * one, every cell decided from the old board alone.
     */
    method Step()
      requires Valid()
      modifies this`board, cells
      ensures Valid() && board == Rules.NextGen(old(board))
    {
      ghost var g := board;
      var toChange := CollectChanges();
      var k := 0;
      while k < |toChange|
        invariant 0 <= k <= |toChange|
        invariant forall x, y :: 0 <= x < cellsWidth && 0 <= y < cellsHeight ==>
          cells[x, y] == (g[x][y] != ((x, y) in toChange[..k]))
      {
        var p := toChange[k];
        assert toChange[..k + 1] == toChange[..k] + [p];
        assert p !in toChange[..k];
        cells[p.0, p.1] := !cells[p.0, p.1];
        k := k + 1;
      }
      assert toChange[..k] == toChange;
      assert Rules.AllInBounds(g, toChange);
      board := Rules.ApplyFlips(g, toChange);
      forall x, y | 0 <= x < cellsWidth && 0 <= y < cellsHeight
        ensures board[x][y] == cells[x, y]
      {
        Rules.ApplyFlipsAt(g, toChange, x, y);
      }
      Rules.BatchFlipIsNextGen(g, toChange);
    }

    /** The board as text: one '0' or '1' per cell, column after column. */
    method GetCellsString() returns (s: string)
      requires Valid()
      ensures s == Rules.Encode(board)
    {
      ghost var g := board;
      s := "";
      var i := 0;
      while i < cellsWidth
        invariant 0 <= i <= cellsWidth
        invariant s == Rules.Encode(g[..i])
      {
        var j := 0;
        while j < cellsHeight
          invariant 0 <= j <= cellsHeight
          invariant s == Rules.Encode(g[..i]) + Rules.EncodeColumn(g[i][..j])
        {
          s := s + [Rules.Char(cells[i, j])];
          assert g[i][..j + 1][..j] == g[i][..j];
          j := j + 1;
        }
        assert g[i][..j] == g[i];
        assert g[..i + 1][..i] == g[..i];
        i := i + 1;
      }
      assert g[..i] == g;
    }

    /**
     * Read s back into the board: chunk k of cellsWidth characters sets
     * column k, character j of the chunk sets row j, live exactly on '1';
     * cells no character reaches keep their state.  Loading always stops
     * the simulation.  Every chunk number and every position in a chunk
     * must name a cell of the board.
     */
    method LoadCells(s: string)
      requires Valid() && Rules.Addressable(|s|, cellsWidth, cellsHeight)
      modifies this`running, this`board, cells
      ensures Valid() && board == Rules.Load(old(board), s, cellsWidth)
      ensures !running
    {
      ghost var g := board;
      var w := cellsWidth;
      var i := 0;
      ghost var k := 0;
      Rules.LoadNothing(g, s, w);
      while i < |s|
        invariant i == k * w && 0 <= k
        invariant w == 0 ==> i == 0
        invariant Valid() && board == Rules.LoadUpTo(g, s, w, if i <= |s| then i else |s|)
        decreases |s| - i
      {
        ChunkInRange(k, w, i, |s|);
        var rowString := s[i..if i + w <= |s| then i + w else |s|];
        LoadChunk(g, s, i / w, i, rowString);
        Rules.MulSucc(k, w);
        i := i + w;
        k := k + 1;
      }
      Stop();
    }

    /** The inner loop of LoadCells: chunk rowString, found at position i of s, sets column x. */
    method LoadChunk(ghost g: Rules.Grid, s: string, x: int, i: nat, rowString: string)
      requires Valid() && Rules.IsGrid(g, cellsWidth, cellsHeight)
      requires 0 <= x < cellsWidth && i == x * cellsWidth
      requires |rowString| <= cellsWidth && |rowString| <= cellsHeight
      requires i + |rowString| <= |s| && rowString == s[i..i + |rowString|]
      requires board == Rules.LoadUpTo(g, s, cellsWidth, i)
      modifies this`board, cells
      ensures Valid() && board == Rules.LoadUpTo(g, s, cellsWidth, i + |rowString|)
    {
      for j := 0 to |rowString|
        invariant Valid() && board == Rules.LoadUpTo(g, s, cellsWidth, i + j)
      {
        Rules.LoadOneMore(g, s, cellsWidth, cellsHeight, x, j, i + j);
        SetCell(x, j, rowString[j] == '1');
      }
    }

    /** Start the simulation; the board is untouched. */
    method Run()
      modifies this`running
      ensures running
    {
      running := true;
    }

    /** Stop the simulation; the board is untouched. */
    method Stop()
      modifies this`running
      ensures !running
    {
      running := false;
    }
  }

  /** A chunk that starts before the end of a text addressable on a w-wide board is one of its w columns. */
  lemma ChunkInRange(k: int, w: int, i: int, n: int)
    requires 0 <= k && 0 < w && i == k * w && i < n && n <= w * w
    ensures k < w && i / w == k
  {
    Rules.MulCancelLess(k, w, w);
    Rules.SameIndex(i / w, i % w, k, 0, w);
  }


}

/**
 * The page around the board: the periodic loop that steps the board while
 * it runs, and the drag-to-paint gesture driven by mouse events.  Events
 * arrive with the cell coordinates already worked out from the pointer.
 */
module Controls {
  import Rules
  import Engine

  datatype Option<T> = None | Some(value: T)

  class Page {
    const field: Engine.Field
    /** A button is held down over the canvas. */
    var mouseActive: bool
    /** The last cell painted, by its coordinates; None before any press. */
    var currentCell: Option<(int, int)>
    /** The value the gesture paints; None between gestures. */
    var settingStatus: Option<bool>

    /** The board is consistent, and a gesture is under way exactly when a paint value is chosen. */
    ghost predicate Valid()
      reads this, field, field.cells
    {
      field.Valid() && (mouseActive <==> settingStatus.Some?)
    }

    /** The page as it loads: a fresh stopped board of dead cells, no gesture. */
    constructor (width: nat, height: nat)
      ensures Valid() && fresh(field) && fresh(field.cells)
      ensures field.cellsWidth == width / 8 && field.cellsHeight == height / 8
      ensures field.board == Rules.Dead(field.cellsWidth, field.cellsHeight) && !field.running
      ensures !mouseActive && currentCell == None && settingStatus == None
    {
      field := new Engine.Field(width, height);
      mouseActive := false;
      currentCell := None;
      settingStatus := None;
    }

    /** One tick of the page loop: a generation when the simulation runs, nothing otherwise. */
    method Tick()
      requires Valid()
      modifies field`board, field.cells
      ensures Valid() && field.running == old(field.running)
      ensures field.board == if field.running then Rules.NextGen(old(field.board)) else old(field.board)
    {
      if field.running {
        field.Step();
      }
    }

    /**
     * Button pressed over cell (x, y): the gesture starts, its paint value
     * becomes the opposite of that cell's state unless one is still set, and
     * the cell is painted with it.
     */
    method MouseDown(x: int, y: int)
      requires Valid() && 0 <= x < field.cellsWidth && 0 <= y < field.cellsHeight
      modifies this, field`board, field.cells
      ensures Valid() && mouseActive && currentCell == Some((x, y))
      ensures settingStatus == if old(settingStatus).None? then Some(!old(field.board)[x][y]) else old(settingStatus)
      ensures field.board == Rules.With(old(field.board), x, y, settingStatus.value)
    {
      mouseActive := true;
      var active := field.GetCell(x, y);
      if settingStatus.None? {
        settingStatus := Some(!active);
      }
      field.SetCell(x, y, settingStatus.value);
      currentCell := Some((x, y));
    }

    /**
     * Pointer over cell (x, y): while the button is down and the cell is not
     * the one painted last, paint it with the gesture's value; otherwise
     * nothing changes.
     */
    method MouseMove(x: int, y: int)
      requires Valid() && 0 <= x < field.cellsWidth && 0 <= y < field.cellsHeight
      modifies this`currentCell, field`board, field.cells
      ensures Valid()
      ensures if old(mouseActive) && old(currentCell) != Some((x, y)) then
          field.board == Rules.With(old(field.board), x, y, settingStatus.value) && currentCell == Some((x, y))
        else
          field.board == old(field.board) && currentCell == old(currentCell)
    {
      if mouseActive && currentCell != Some((x, y)) {
        field.SetCell(x, y, settingStatus.value);
        currentCell := Some((x, y));
      }
    }

    /** Button released: the gesture ends and its paint value is forgotten; the last cell is kept. */
    method MouseUp()
      requires Valid()
      modifies this`mouseActive, this`settingStatus
      ensures Valid() && !mouseActive && settingStatus == None
    {
      mouseActive := false;
      settingStatus := None;
    }

    /**
     * A whole drag: press on path[0], move over the rest of the path, release.
     * Every cell on the path ends up with the opposite of the first cell's
     * state before the press, and every other cell is as it was.
     */
    method Drag(path: seq<(int, int)>)
      requires Valid() && !mouseActive && |path| > 0
      requires forall k :: 0 <= k < |path| ==>
        0 <= path[k].0 < field.cellsWidth && 0 <= path[k].1 < field.cellsHeight
      modifies this, field`board, field.cells
      ensures Valid() && !mouseActive && settingStatus == None
      ensures currentCell == Some(path[|path| - 1])
      ensures Rules.IsGrid(field.board, field.cellsWidth, field.cellsHeight)
      ensures forall x, y :: 0 <= x < field.cellsWidth && 0 <= y < field.cellsHeight ==>
        field.board[x][y] == if (x, y) in path then !old(field.board)[path[0].0][path[0].1] else old(field.board)[x][y]
    {
      ghost var g := field.board;
      ghost var v := !g[path[0].0][path[0].1];
      MouseDown(path[0].0, path[0].1);
      var k := 1;
      while k < |path|
        invariant 1 <= k <= |path|
        invariant Valid() && mouseActive && settingStatus == Some(v)
        invariant currentCell == Some(path[k - 1])
        invariant Rules.IsGrid(field.board, field.cellsWidth, field.cellsHeight)
        invariant forall x, y :: 0 <= x < field.cellsWidth && 0 <= y < field.cellsHeight ==>
          field.board[x][y] == if (x, y) in path[..k] then v else g[x][y]
      {
        MouseMove(path[k].0, path[k].1);
        assert path[..k + 1] == path[..k] + [path[k]];
        assert path[k - 1] in path[..k];
        k := k + 1;
      }
      assert path[..k] == path;
      MouseUp();
    }
  }
}

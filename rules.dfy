/**
 * The rules of the board as pure functions over a snapshot of it.
 *
 * A snapshot is indexed like the page's table of cells: `g[x][y]`, outer
 * index x (column, 0 <= x < cellsWidth), inner index y (row,
 * 0 <= y < cellsHeight), `true` for a live cell.  The board does not wrap:
 * a position outside the table has no cell and counts as dead.
 */
module Rules {

  type Grid = seq<seq<bool>>

  /** A fully populated w-by-h table: every column holds exactly h cells. */
  predicate IsGrid(g: Grid, w: int, h: int) {
    |g| == w && forall x :: 0 <= x < |g| ==> |g[x]| == h
  }

  predicate InBounds(g: Grid, x: int, y: int) {
    0 <= x < |g| && 0 <= y < |g[x]|
  }

  /** Position (x, y) holds a cell and that cell is live. */
  predicate Alive(g: Grid, x: int, y: int) {
    InBounds(g, x, y) && g[x][y]
  }

  /** A boolean taken as a number, as `count += cell.active` does. */
  function Bit(b: bool): nat {
    if b then 1 else 0
  }

  /** The eight offsets of the Moore neighbourhood; (0, 0) is not among them. */
  const MOORE_OFFSETS: seq<(int, int)> :=
    [(-1, -1), (-1, 0), (-1, 1), (0, -1), (0, 1), (1, -1), (1, 0), (1, 1)]

  /** How many of the positions (x, y) + o, for o in offsets, hold a live cell. */
  function CountLive(g: Grid, x: int, y: int, offsets: seq<(int, int)>): nat {
    if offsets == [] then 0
    else Bit(Alive(g, x + offsets[0].0, y + offsets[0].1)) + CountLive(g, x, y, offsets[1..])
  }

  /** Reference definition of the live-neighbour count of (x, y). */
  function Neighbours(g: Grid, x: int, y: int): nat {
    CountLive(g, x, y, MOORE_OFFSETS)
  }

  /** Survival rule S23 read negatively: a live cell with fewer than 2 or more than 3 live neighbours dies. */
  predicate Dies(active: bool, neighbours: int): (r: bool)
    ensures r ==> active
    ensures active ==> (r <==> neighbours != 2 && neighbours != 3)
  {
    active && (neighbours < 2 || neighbours > 3)
  }

  /** Birth rule B3: a dead cell with exactly 3 live neighbours is born. */
  predicate Born(active: bool, neighbours: int): (r: bool)
    ensures r ==> !active
    ensures !active ==> (r <==> neighbours == 3)
  {
    !active && neighbours == 3
  }

  predicate ShouldDie(g: Grid, x: int, y: int): (r: bool)
    requires InBounds(g, x, y)
    ensures r ==> g[x][y]
    ensures g[x][y] ==> (r <==> Neighbours(g, x, y) != 2 && Neighbours(g, x, y) != 3)
  {
    Dies(g[x][y], Neighbours(g, x, y))
  }

  predicate ShouldBirth(g: Grid, x: int, y: int): (r: bool)
    requires InBounds(g, x, y)
    ensures r ==> !g[x][y]
    ensures !g[x][y] ==> (r <==> Neighbours(g, x, y) == 3)
  {
    Born(g[x][y], Neighbours(g, x, y))
  }

  /** The cell at (x, y) is one of those a generation step flips. */
  predicate ShouldFlip(g: Grid, x: int, y: int): (r: bool)
    requires InBounds(g, x, y)
    ensures r <==> if g[x][y] then Neighbours(g, x, y) != 2 && Neighbours(g, x, y) != 3 else Neighbours(g, x, y) == 3
  {
    ShouldDie(g, x, y) || ShouldBirth(g, x, y)
  }

  /** State of cell (x, y) in the next generation: flipped exactly when it should flip. */
  predicate Next(g: Grid, x: int, y: int)
    requires InBounds(g, x, y)
  {
    g[x][y] != ShouldFlip(g, x, y)
  }

  /** The next generation, every cell computed from the same snapshot g. */
  function NextGen(g: Grid): (r: Grid)
    ensures |r| == |g| && forall x :: 0 <= x < |g| ==> |r[x]| == |g[x]|
  {
    seq(|g|, x requires 0 <= x < |g| =>
      seq(|g[x]|, y requires 0 <= y < |g[x]| => Next(g, x, y)))
  }

  /** The board as the page creates it: w columns of h dead cells. */
  function Dead(w: nat, h: nat): (r: Grid)
    ensures IsGrid(r, w, h)
    ensures forall x, y :: 0 <= x < w && 0 <= y < h ==> !r[x][y]
  {
    seq(w, _ => seq(h, _ => false))
  }

  /** Two snapshots with the same shape and the same cells are equal. */
  lemma GridExt(a: Grid, b: Grid)
    requires |a| == |b|
    requires forall x :: 0 <= x < |a| ==> |a[x]| == |b[x]|
    requires forall x, y :: 0 <= x < |a| && 0 <= y < |a[x]| ==> a[x][y] == b[x][y]
    ensures a == b
  {
    forall x | 0 <= x < |a|
      ensures a[x] == b[x]
    {
      assert forall y :: 0 <= y < |a[x]| ==> a[x][y] == b[x][y];
    }
  }

  // ---------------------------------------------------------------------
  // Neighbour count

  lemma {:induction false} CountLiveAtMost(g: Grid, x: int, y: int, offsets: seq<(int, int)>)
    ensures CountLive(g, x, y, offsets) <= |offsets|
  {
    if offsets != [] {
      CountLiveAtMost(g, x, y, offsets[1..]);
    }
  }

  /** The live-neighbour count lies in [0, 8]. */
  lemma NeighboursRange(g: Grid, x: int, y: int)
    ensures 0 <= Neighbours(g, x, y) <= 8
  {
    CountLiveAtMost(g, x, y, MOORE_OFFSETS);
  }

  /** The count as a sum of its eight terms, one per neighbour position. */
  lemma NeighboursUnrolled(g: Grid, x: int, y: int)
    ensures Neighbours(g, x, y) ==
      Bit(Alive(g, x - 1, y - 1)) + Bit(Alive(g, x - 1, y)) + Bit(Alive(g, x - 1, y + 1)) +
      Bit(Alive(g, x, y - 1)) + Bit(Alive(g, x, y + 1)) +
      Bit(Alive(g, x + 1, y - 1)) + Bit(Alive(g, x + 1, y)) + Bit(Alive(g, x + 1, y + 1))
  {
    var o := MOORE_OFFSETS;
    assert CountLive(g, x, y, o[8..]) == 0;
    assert CountLive(g, x, y, o[7..]) == Bit(Alive(g, x + 1, y + 1)) by { assert o[7..][1..] == o[8..]; }
    assert CountLive(g, x, y, o[6..]) == Bit(Alive(g, x + 1, y)) + CountLive(g, x, y, o[7..]) by { assert o[6..][1..] == o[7..]; }
    assert CountLive(g, x, y, o[5..]) == Bit(Alive(g, x + 1, y - 1)) + CountLive(g, x, y, o[6..]) by { assert o[5..][1..] == o[6..]; }
    assert CountLive(g, x, y, o[4..]) == Bit(Alive(g, x, y + 1)) + CountLive(g, x, y, o[5..]) by { assert o[4..][1..] == o[5..]; }
    assert CountLive(g, x, y, o[3..]) == Bit(Alive(g, x, y - 1)) + CountLive(g, x, y, o[4..]) by { assert o[3..][1..] == o[4..]; }
    assert CountLive(g, x, y, o[2..]) == Bit(Alive(g, x - 1, y + 1)) + CountLive(g, x, y, o[3..]) by { assert o[2..][1..] == o[3..]; }
    assert CountLive(g, x, y, o[1..]) == Bit(Alive(g, x - 1, y)) + CountLive(g, x, y, o[2..]) by { assert o[1..][1..] == o[2..]; }
    assert CountLive(g, x, y, o) == Bit(Alive(g, x - 1, y - 1)) + CountLive(g, x, y, o[1..]);
  }

  /** At each corner of a board only three neighbour positions lie on the board. */
  lemma CornerNeighbours(g: Grid, w: nat, h: nat)
    requires IsGrid(g, w, h) && w > 0 && h > 0
    ensures Neighbours(g, 0, 0) <= 3 && Neighbours(g, w - 1, 0) <= 3
    ensures Neighbours(g, 0, h - 1) <= 3 && Neighbours(g, w - 1, h - 1) <= 3
  {
    NeighboursUnrolled(g, 0, 0);
    NeighboursUnrolled(g, w - 1, 0);
    NeighboursUnrolled(g, 0, h - 1);
    NeighboursUnrolled(g, w - 1, h - 1);
  }

  /** The cell itself is not one of its neighbours: changing it leaves its count alone. */
  lemma NeighboursExcludeSelf(g: Grid, x: int, y: int, b: bool)
    requires InBounds(g, x, y)
    ensures Neighbours(g[x := g[x][y := b]], x, y) == Neighbours(g, x, y)
  {
    var g' := g[x := g[x][y := b]];
    NeighboursUnrolled(g, x, y);
    NeighboursUnrolled(g', x, y);
    forall a, c | (a, c) != (x, y)
      ensures Alive(g', a, c) == Alive(g, a, c)
    {
    }
  }

  /** Offsets whose positions are all dead count zero. */
  lemma {:induction false} CountLiveNone(g: Grid, x: int, y: int, offsets: seq<(int, int)>)
    requires forall k :: 0 <= k < |offsets| ==> !Alive(g, x + offsets[k].0, y + offsets[k].1)
    ensures CountLive(g, x, y, offsets) == 0
  {
    if offsets != [] {
      CountLiveNone(g, x, y, offsets[1..]);
    }
  }

  // ---------------------------------------------------------------------
  // Rules

  /** No cell both dies and is born. */
  lemma RulesExclusive(active: bool, neighbours: int)
    ensures !(Dies(active, neighbours) && Born(active, neighbours))
  {
  }

  /** Flipping on die-or-birth is Conway's B3/S23 rule. */
  lemma NextIsB3S23(g: Grid, x: int, y: int)
    requires InBounds(g, x, y)
    ensures Next(g, x, y) <==>
      (Neighbours(g, x, y) == 3 || (g[x][y] && Neighbours(g, x, y) == 2))
  {
  }

  /** A live cell whose in-bounds neighbours are all dead dies. */
  lemma IsolatedCellDies(g: Grid, x: int, y: int)
    requires InBounds(g, x, y) && g[x][y]
    requires forall k :: 0 <= k < 8 ==> !Alive(g, x + MOORE_OFFSETS[k].0, y + MOORE_OFFSETS[k].1)
    ensures !Next(g, x, y)
  {
    CountLiveNone(g, x, y, MOORE_OFFSETS);
  }

  /** A board with no live cell is a fixed point of the step. */
  lemma DeadIsFixed(w: nat, h: nat)
    ensures NextGen(Dead(w, h)) == Dead(w, h)
  {
    var g := Dead(w, h);
    forall x, y | 0 <= x < w && 0 <= y < h
      ensures NextGen(g)[x][y] == g[x][y]
    {
      CountLiveNone(g, x, y, MOORE_OFFSETS);
    }
    GridExt(NextGen(g), g);
  }

  /** A 2x2 block of live cells at (a, b), alone on a rectangular board, is unchanged by the step. */
  lemma BlockIsStill(g: Grid, w: nat, h: nat, a: int, b: int)
    requires IsGrid(g, w, h) && 0 <= a && a + 1 < w && 0 <= b && b + 1 < h
    requires forall x, y :: InBounds(g, x, y) ==> (g[x][y] <==> a <= x <= a + 1 && b <= y <= b + 1)
    ensures NextGen(g) == g
  {
    forall x, y | InBounds(g, x, y)
      ensures NextGen(g)[x][y] == g[x][y]
    {
      NeighboursUnrolled(g, x, y);
    }
    GridExt(NextGen(g), g);
  }

  /**
   * Three live cells in an L, alone on a rectangular board: all three
   * survive, the fourth corner of their 2x2 square is born, nothing else
   * lives.
   */
  lemma LShapeCompletesBlock(g: Grid, w: nat, h: nat, a: int, b: int)
    requires IsGrid(g, w, h) && 0 <= a && a + 1 < w && 0 <= b && b + 1 < h
    requires forall x, y :: InBounds(g, x, y) ==>
      (g[x][y] <==> (x, y) == (a, b) || (x, y) == (a + 1, b) || (x, y) == (a, b + 1))
    ensures forall x, y :: InBounds(g, x, y) ==>
      (NextGen(g)[x][y] <==> a <= x <= a + 1 && b <= y <= b + 1)
  {
    assert forall u, v :: Alive(g, u, v) <==> (u == a && v == b) || (u == a + 1 && v == b) || (u == a && v == b + 1);
    forall x, y | InBounds(g, x, y)
      ensures NextGen(g)[x][y] <==> a <= x <= a + 1 && b <= y <= b + 1
    {
      LShapeAt(g, a, b, x, y);
    }
  }

  /** One cell of LShapeCompletesBlock, the L given by the positions holding a live cell. */
  lemma LShapeAt(g: Grid, a: int, b: int, x: int, y: int)
    requires InBounds(g, x, y)
    requires forall u, v :: Alive(g, u, v) <==> (u == a && v == b) || (u == a + 1 && v == b) || (u == a && v == b + 1)
    ensures Next(g, x, y) <==> a <= x <= a + 1 && b <= y <= b + 1
  {
    NeighboursUnrolled(g, x, y);
    assert g[x][y] == Alive(g, x, y);
    // Only the 4x4 window around the L can see any of its cells; inside it, go column by column.
    if x < a - 1 || a + 2 < x || y < b - 1 || b + 2 < y {
    } else if x == a - 1 {
    } else if x == a {
    } else if x == a + 1 {
    }
  }

  // ---------------------------------------------------------------------
  // The step as a batch of flips

  predicate NoDup(ps: seq<(int, int)>) {
    forall i, j :: 0 <= i < j < |ps| ==> ps[i] != ps[j]
  }

  predicate AllInBounds(g: Grid, ps: seq<(int, int)>) {
    forall k :: 0 <= k < |ps| ==> InBounds(g, ps[k].0, ps[k].1)
  }

  /** Cell (x, y) set to b, every other cell as in g. */
  function With(g: Grid, x: int, y: int, b: bool): (r: Grid)
    requires InBounds(g, x, y)
    ensures |r| == |g| && forall a :: 0 <= a < |g| ==> |r[a]| == |g[a]|
    ensures r[x][y] == b
    ensures forall a, c :: InBounds(g, a, c) && (a, c) != (x, y) ==> r[a][c] == g[a][c]
  {
    g[x := g[x][y := b]]
  }

  /** Negate the cell at p, as `cell.active = !cell.active` does. */
  function Flip(g: Grid, p: (int, int)): (r: Grid)
    requires InBounds(g, p.0, p.1)
    ensures |r| == |g| && forall x :: 0 <= x < |g| ==> |r[x]| == |g[x]|
    ensures forall x, y :: InBounds(g, x, y) ==> r[x][y] == (g[x][y] != ((x, y) == p))
  {
    g[p.0 := g[p.0][p.1 := !g[p.0][p.1]]]
  }

  /** Flip the cells of ps one after the other, in list order. */
  function ApplyFlips(g: Grid, ps: seq<(int, int)>): (r: Grid)
    requires AllInBounds(g, ps)
    ensures |r| == |g| && forall x :: 0 <= x < |g| ==> |r[x]| == |g[x]|
    decreases |ps|
  {
    if ps == [] then g
    else
      var g' := Flip(g, ps[0]);
      assert AllInBounds(g', ps[1..]) by {
        forall k | 0 <= k < |ps[1..]|
          ensures InBounds(g', ps[1..][k].0, ps[1..][k].1)
        {
          assert ps[1..][k] == ps[k + 1];
        }
      }
      ApplyFlips(g', ps[1..])
  }

  /** With no position listed twice, a cell ends up flipped exactly when it is listed. */
  lemma {:induction false} ApplyFlipsAt(g: Grid, ps: seq<(int, int)>, x: int, y: int)
    requires AllInBounds(g, ps) && NoDup(ps) && InBounds(g, x, y)
    ensures ApplyFlips(g, ps)[x][y] == (g[x][y] != ((x, y) in ps))
    decreases |ps|
  {
    if ps != [] {
      var g' := Flip(g, ps[0]);
      assert AllInBounds(g', ps[1..]) by {
        forall k | 0 <= k < |ps[1..]|
          ensures InBounds(g', ps[1..][k].0, ps[1..][k].1)
        {
          assert ps[1..][k] == ps[k + 1];
        }
      }
      assert NoDup(ps[1..]) by {
        forall i, j | 0 <= i < j < |ps[1..]|
          ensures ps[1..][i] != ps[1..][j]
        {
          assert ps[1..][i] == ps[i + 1] && ps[1..][j] == ps[j + 1];
        }
      }
      ApplyFlipsAt(g', ps[1..], x, y);
      assert (x, y) in ps <==> (x, y) == ps[0] || (x, y) in ps[1..] by {
        assert ps == [ps[0]] + ps[1..];
      }
    }
  }

  /** Two duplicate-free lists of the same positions flip the board alike: the order does not matter. */
  lemma FlipOrderIrrelevant(g: Grid, ps: seq<(int, int)>, qs: seq<(int, int)>)
    requires AllInBounds(g, ps) && NoDup(ps)
    requires AllInBounds(g, qs) && NoDup(qs)
    requires forall p :: p in ps <==> p in qs
    ensures ApplyFlips(g, ps) == ApplyFlips(g, qs)
  {
    forall x, y | 0 <= x < |g| && 0 <= y < |g[x]|
      ensures ApplyFlips(g, ps)[x][y] == ApplyFlips(g, qs)[x][y]
    {
      ApplyFlipsAt(g, ps, x, y);
      ApplyFlipsAt(g, qs, x, y);
    }
    GridExt(ApplyFlips(g, ps), ApplyFlips(g, qs));
  }

  /**
   * Collect-then-flip is the generation step: whatever order the cells that
   * should flip were collected in, flipping them all yields NextGen(g).
   */
  lemma BatchFlipIsNextGen(g: Grid, ps: seq<(int, int)>)
    requires AllInBounds(g, ps) && NoDup(ps)
    requires forall x, y :: InBounds(g, x, y) ==> ((x, y) in ps <==> ShouldFlip(g, x, y))
    ensures ApplyFlips(g, ps) == NextGen(g)
  {
    forall x, y | 0 <= x < |g| && 0 <= y < |g[x]|
      ensures ApplyFlips(g, ps)[x][y] == NextGen(g)[x][y]
    {
      ApplyFlipsAt(g, ps, x, y);
    }
    GridExt(ApplyFlips(g, ps), NextGen(g));
  }

  // ---------------------------------------------------------------------
  // Text form of the board

  function Char(b: bool): char {
    if b then '1' else '0'
  }

  /** One column, y ascending, one character per cell. */
  function EncodeColumn(c: seq<bool>): string {
    if |c| == 0 then "" else EncodeColumn(c[..|c| - 1]) + [Char(c[|c| - 1])]
  }

  /** The whole board, column after column (x-major, then y). */
  function Encode(g: Grid): string {
    if |g| == 0 then "" else Encode(g[..|g| - 1]) + EncodeColumn(g[|g| - 1])
  }

  lemma {:induction false} EncodeColumnAt(c: seq<bool>)
    ensures |EncodeColumn(c)| == |c|
    ensures forall y :: 0 <= y < |c| ==> EncodeColumn(c)[y] == Char(c[y])
  {
    if |c| > 0 {
      EncodeColumnAt(c[..|c| - 1]);
    }
  }

  /** The text has one character per cell. */
  lemma {:induction false} EncodeLength(g: Grid, h: nat)
    requires IsGrid(g, |g|, h)
    ensures |Encode(g)| == |g| * h
  {
    if |g| > 0 {
      EncodeLength(g[..|g| - 1], h);
      EncodeColumnAt(g[|g| - 1]);
    }
  }

  /** The character at x * h + y is '1' exactly when cell (x, y) is live. */
  lemma {:induction false} EncodeAt(g: Grid, h: nat, x: int, y: int)
    requires IsGrid(g, |g|, h) && 0 <= x < |g| && 0 <= y < h
    ensures x * h + y < |Encode(g)|
    ensures Encode(g)[x * h + y] == Char(g[x][y])
  {
    var n := |g| - 1;
    EncodeLength(g[..n], h);
    EncodeColumnAt(g[n]);
    EncodeLength(g, h);
    if x == n {
      assert Encode(g) == Encode(g[..n]) + EncodeColumn(g[n]);
    } else {
      EncodeAt(g[..n], h, x, y);
      assert x * h + y < n * h by {
        assert (x + 1) * h <= n * h by {
          MulMono(x + 1, n, h);
        }
      }
    }
  }

  /** The text is made of '0' and '1' only. */
  lemma {:induction false} EncodeBinary(g: Grid)
    ensures forall i :: 0 <= i < |Encode(g)| ==> Encode(g)[i] == '0' || Encode(g)[i] == '1'
  {
    if |g| > 0 {
      EncodeBinary(g[..|g| - 1]);
      EncodeColumnAt(g[|g| - 1]);
    }
  }

  lemma MulMono(a: int, b: int, h: nat)
    requires a <= b
    ensures a * h <= b * h
  {
  }

  // ---------------------------------------------------------------------
  // Reading the text back

  /**
   * The board after reading s in chunks of w characters: chunk k is column
   * k, the i-th character of a chunk is row i, and a cell is set live
   * exactly when its character is '1'.  Cells no character reaches keep
   * their state.
   */
  function Load(g: Grid, s: string, w: nat): (r: Grid)
    ensures |r| == |g| && forall x :: 0 <= x < |g| ==> |r[x]| == |g[x]|
  {
    LoadUpTo(g, s, w, |s|)
  }

  /** The board after reading only the first p characters of s. */
  function LoadUpTo(g: Grid, s: string, w: nat, p: nat): (r: Grid)
    requires p <= |s|
    ensures |r| == |g| && forall x :: 0 <= x < |g| ==> |r[x]| == |g[x]|
  {
    seq(|g|, x requires 0 <= x < |g| =>
      seq(|g[x]|, y requires 0 <= y < |g[x]| =>
        if y < w && x * w + y < p then s[x * w + y] == '1' else g[x][y]))
  }

  /**
   * Reading n characters in chunks of w (the board's width) only touches
   * cells of a w-by-h board: every chunk number is below w, every position
   * in a chunk below h, and there is a chunk at all only when w > 0.
   */
  predicate Addressable(n: nat, w: nat, h: nat) {
    n == 0 || (0 < w && n <= w * w && (w <= h || n <= h))
  }

  /**
   * Addressable is exact: a text of n characters read in chunks of w
   * reaches only existing cells, chunk number p / w below w and offset
   * p % w below h for every position p, exactly when Addressable holds.
   */
  lemma AddressableExact(n: nat, w: nat, h: nat)
    ensures Addressable(n, w, h) <==>
      (n == 0 || (0 < w && forall p :: 0 <= p < n ==> p / w < w && p % w < h))
  {
    if n > 0 && 0 < w {
      if Addressable(n, w, h) {
        forall p | 0 <= p < n
          ensures p / w < w && p % w < h
        {
          DivBelow(p, w);
        }
      }
      if forall p :: 0 <= p < n ==> p / w < w && p % w < h {
        DivBelow(n - 1, w);
        // When w > h, position h, if the text reaches it, is offset h of chunk 0: too far down.
        var p := if h < n then h else n - 1;
        assert p % w < h;
        if h < w {
          ModSmall(h, w);
        }
      }
    }
  }

  /** A position below w is offset p of chunk 0. */
  lemma ModSmall(p: nat, w: nat)
    requires p < w
    ensures p / w == 0 && p % w == p
  {
    SameIndex(p / w, p % w, 0, p, w);
  }

  /** A position lies in one of the first w chunks of w exactly when it is below w * w. */
  lemma DivBelow(p: nat, w: nat)
    requires 0 < w
    ensures p / w < w <==> p < w * w
  {
    var q, r := p / w, p % w;
    assert p == q * w + r;
    if q < w {
      MulMono(q + 1, w, w);
      MulSucc(q, w);
    } else {
      MulMono(w, q, w);
    }
  }

  /** Reading no character leaves the board as it was. */
  lemma LoadNothing(g: Grid, s: string, w: nat)
    ensures LoadUpTo(g, s, w, 0) == g
  {
    GridExt(LoadUpTo(g, s, w, 0), g);
  }

  /**
   * Reading one more character, the one at p == k * w + j, sets cell (k, j)
   * and nothing else.
   */
  lemma LoadOneMore(g: Grid, s: string, w: nat, h: nat, k: int, j: int, p: nat)
    requires IsGrid(g, |g|, h) && 0 <= k < |g| && 0 <= j < w && j < h
    requires p == k * w + j && p < |s|
    ensures LoadUpTo(g, s, w, p + 1) == With(LoadUpTo(g, s, w, p), k, j, s[p] == '1')
  {
    var before, after := LoadUpTo(g, s, w, p), LoadUpTo(g, s, w, p + 1);
    forall x, y | 0 <= x < |g| && 0 <= y < |g[x]|
      ensures after[x][y] == With(before, k, j, s[p] == '1')[x][y]
    {
      if y < w {
        SameIndex(x, y, k, j, w);
      }
    }
    GridExt(after, With(before, k, j, s[p] == '1'));
  }

  /** In chunks of w, a position names one (chunk, offset) pair. */
  lemma SameIndex(x: int, y: int, k: int, j: int, w: int)
    requires 0 <= y < w && 0 <= j < w
    ensures x * w + y == k * w + j <==> (x, y) == (k, j)
  {
    if x < k {
      MulMono(x + 1, k, w);
      MulSucc(x, w);
    } else if x > k {
      MulMono(k + 1, x, w);
      MulSucc(k, w);
    }
  }

  /**
   * On a square board, the text of g read into any board g0 of the same
   * size gives g back: every cell is set from the text.
   */
  lemma LoadEncodeRoundTrip(g0: Grid, g: Grid, w: nat)
    requires IsGrid(g, w, w) && IsGrid(g0, w, w)
    ensures Addressable(|Encode(g)|, w, w)
    ensures Load(g0, Encode(g), w) == g
  {
    EncodeLength(g, w);
    forall x, y | 0 <= x < w && 0 <= y < w
      ensures Load(g0, Encode(g), w)[x][y] == g[x][y]
    {
      EncodeAt(g, w, x, y);
    }
    GridExt(Load(g0, Encode(g), w), g);
  }

  /**
   * The text of a w-by-h board can be read back into that board without
   * reaching a missing cell exactly when the board is square or empty.
   */
  lemma EncodeAddressableIffSquare(g: Grid, w: nat, h: nat)
    requires IsGrid(g, w, h)
    ensures Addressable(|Encode(g)|, w, h) <==> (w == h || w * h == 0)
  {
    EncodeLength(g, h);
    if w > 0 && h > 0 {
      if w < h {
        assert w * w < w * h by { MulStrict(w, h, w); }
      }
      if h < w {
        assert h < w * h by { MulStrict(1, w, h); }
        assert w * h > h;
      }
    }
  }

  lemma MulSucc(a: int, w: int)
    ensures (a + 1) * w == a * w + w
  {
  }

  lemma MulCancelLess(a: int, b: int, w: int)
    requires 0 < w && a * w < b * w
    ensures a < b
  {
    if a >= b {
      MulMono(b, a, w);
    }
  }

  lemma MulStrict(a: int, b: int, c: int)
    requires a < b && c > 0
    ensures c * a < c * b && a * c < b * c
  {
  }
}

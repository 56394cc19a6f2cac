/** getNeighbours of api/controller.js: the in-bounds king-move cells around a cell. */
module Neighbourhood {

  /** A board position [row, column]. */
  type Cell = (int, int)

  /** The eight king-move offsets in the order getNeighbours tries them:
      up-left, up-right, down-right, down-left, up, down, left, right. */
  const Offsets: seq<(int, int)> := [(-1, -1), (-1, 1), (1, 1), (1, -1), (-1, 0), (1, 0), (0, -1), (0, 1)]

  predicate InGrid(rows: int, cols: int, c: Cell) {
    0 <= c.0 < rows && 0 <= c.1 < cols
  }

  /** Chebyshev distance exactly one. */
  predicate Adjacent(a: Cell, b: Cell) {
    a != b && -1 <= a.0 - b.0 <= 1 && -1 <= a.1 - b.1 <= 1
  }

  function Shift(c: Cell, d: (int, int)): Cell {
    (c.0 + d.0, c.1 + d.1)
  }

  /** The shift of c by d, if it is inside the grid. */
  function Step(rows: int, cols: int, c: Cell, d: (int, int)): seq<Cell> {
    if InGrid(rows, cols, Shift(c, d)) then [Shift(c, d)] else []
  }

  /** The shifts of c by the offsets ds, in order, keeping those inside the grid. */
  function ShiftsInGrid(rows: int, cols: int, c: Cell, ds: seq<(int, int)>): seq<Cell> {
    if ds == [] then [] else Step(rows, cols, c, ds[0]) + ShiftsInGrid(rows, cols, c, ds[1..])
  }

  /** The reference neighbour list: the eight offsets, in order, filtered by the grid. */
  function Neighbours(rows: int, cols: int, c: Cell): seq<Cell> {
    ShiftsInGrid(rows, cols, c, Offsets)
  }

  predicate NoDuplicates(s: seq<Cell>) {
    forall a, b :: 0 <= a < b < |s| ==> s[a] != s[b]
  }

  /** A cell is in the filtered list exactly when it is in the grid and is the shift of c
      by one of the offsets. */
  lemma {:induction false} ShiftsInGridMembers(rows: int, cols: int, c: Cell, ds: seq<(int, int)>, q: Cell)
    ensures q in ShiftsInGrid(rows, cols, c, ds) <==> InGrid(rows, cols, q) && (q.0 - c.0, q.1 - c.1) in ds
    ensures |ShiftsInGrid(rows, cols, c, ds)| <= |ds|
  {
    if ds != [] {
      ShiftsInGridMembers(rows, cols, c, ds[1..], q);
      assert ds == [ds[0]] + ds[1..];
    }
  }

  /** Distinct offsets give distinct cells. */
  lemma {:induction false} ShiftsInGridDistinct(rows: int, cols: int, c: Cell, ds: seq<(int, int)>)
    requires forall a, b :: 0 <= a < b < |ds| ==> ds[a] != ds[b]
    ensures NoDuplicates(ShiftsInGrid(rows, cols, c, ds))
  {
    if ds != [] {
      var tail := ShiftsInGrid(rows, cols, c, ds[1..]);
      ShiftsInGridDistinct(rows, cols, c, ds[1..]);
      if InGrid(rows, cols, Shift(c, ds[0])) {
        assert ShiftsInGrid(rows, cols, c, ds) == [Shift(c, ds[0])] + tail;
        ShiftsInGridMembers(rows, cols, c, ds[1..], Shift(c, ds[0]));
        assert ds[0] !in ds[1..];
        var whole := [Shift(c, ds[0])] + tail;
        forall a, b | 0 <= a < b < |whole| ensures whole[a] != whole[b] {
          if a == 0 {
            assert whole[b] == tail[b - 1];
          } else {
            assert whole[a] == tail[a - 1] && whole[b] == tail[b - 1];
          }
        }
      }
    }
  }

  /** The neighbours of an in-grid cell are exactly the in-grid cells adjacent to it: never
      the cell itself, no cell twice, and at most eight. */
  lemma NeighboursExact(rows: int, cols: int, c: Cell)
    ensures forall q :: q in Neighbours(rows, cols, c) <==> InGrid(rows, cols, q) && Adjacent(c, q)
    ensures c !in Neighbours(rows, cols, c)
    ensures NoDuplicates(Neighbours(rows, cols, c))
    ensures |Neighbours(rows, cols, c)| <= 8
  {
    forall q ensures q in Neighbours(rows, cols, c) <==> InGrid(rows, cols, q) && Adjacent(c, q) {
      ShiftsInGridMembers(rows, cols, c, Offsets, q);
    }
    ShiftsInGridMembers(rows, cols, c, Offsets, c);
    ShiftsInGridDistinct(rows, cols, c, Offsets);
  }

  /** Prepending one offset prepends its step. */
  lemma ShiftsInGridCons(rows: int, cols: int, c: Cell, d: (int, int), ds: seq<(int, int)>)
    ensures ShiftsInGrid(rows, cols, c, [d] + ds) == Step(rows, cols, c, d) + ShiftsInGrid(rows, cols, c, ds)
  {
    assert ([d] + ds)[1..] == ds;
  }

  /** The reference list written out offset by offset. */
  lemma NeighboursUnrolled(rows: int, cols: int, c: Cell)
    ensures ShiftsInGrid(rows, cols, c, Offsets) ==
      Step(rows, cols, c, (-1, -1)) + (Step(rows, cols, c, (-1, 1)) + (Step(rows, cols, c, (1, 1))
      + (Step(rows, cols, c, (1, -1)) + (Step(rows, cols, c, (-1, 0)) + (Step(rows, cols, c, (1, 0))
      + (Step(rows, cols, c, (0, -1)) + Step(rows, cols, c, (0, 1))))))))
  {
    var d0, d1, d2, d3, d4, d5, d6, d7 := (-1, -1), (-1, 1), (1, 1), (1, -1), (-1, 0), (1, 0), (0, -1), (0, 1);
    var t7 := [d7];
    var t6 := [d6] + t7;
    var t5 := [d5] + t6;
    var t4 := [d4] + t5;
    var t3 := [d3] + t4;
    var t2 := [d2] + t3;
    var t1 := [d1] + t2;
    var t0 := [d0] + t1;
    assert Offsets == t0;
    ShiftsInGridCons(rows, cols, c, d7, []);
    assert t7 == [d7] + [];
    var r := Step(rows, cols, c, d7);
    assert ShiftsInGrid(rows, cols, c, t7) == r;
    ShiftsInGridCons(rows, cols, c, d6, t7);
    r := Step(rows, cols, c, d6) + r;
    assert ShiftsInGrid(rows, cols, c, t6) == r;
    ShiftsInGridCons(rows, cols, c, d5, t6);
    r := Step(rows, cols, c, d5) + r;
    assert ShiftsInGrid(rows, cols, c, t5) == r;
    ShiftsInGridCons(rows, cols, c, d4, t5);
    r := Step(rows, cols, c, d4) + r;
    assert ShiftsInGrid(rows, cols, c, t4) == r;
    ShiftsInGridCons(rows, cols, c, d3, t4);
    r := Step(rows, cols, c, d3) + r;
    assert ShiftsInGrid(rows, cols, c, t3) == r;
    ShiftsInGridCons(rows, cols, c, d2, t3);
    r := Step(rows, cols, c, d2) + r;
    assert ShiftsInGrid(rows, cols, c, t2) == r;
    ShiftsInGridCons(rows, cols, c, d1, t2);
    r := Step(rows, cols, c, d1) + r;
    assert ShiftsInGrid(rows, cols, c, t1) == r;
    ShiftsInGridCons(rows, cols, c, d0, t1);
    r := Step(rows, cols, c, d0) + r;
    assert ShiftsInGrid(rows, cols, c, t0) == r;
  }

  /** One conditional push of getNeighbours appends the step for its offset, provided
      its guard is the in-grid test for that offset. */
  lemma PushStep(rows: int, cols: int, c: Cell, d: (int, int), before: seq<Cell>, after: seq<Cell>, inside: bool)
    requires inside <==> InGrid(rows, cols, Shift(c, d))
    requires after == if inside then before + [Shift(c, d)] else before
    ensures after == before + Step(rows, cols, c, d)
  {
  }

  /** The successive lists of getNeighbours, each the previous one followed by the step
      for the next offset, end in the reference list. */
  lemma NeighboursAssembled(rows: int, cols: int, c: Cell,
                            n0: seq<Cell>, n1: seq<Cell>, n2: seq<Cell>, n3: seq<Cell>, n4: seq<Cell>,
                            n5: seq<Cell>, n6: seq<Cell>, n7: seq<Cell>, n8: seq<Cell>)
    requires n0 == []
    requires n1 == n0 + Step(rows, cols, c, (-1, -1))
    requires n2 == n1 + Step(rows, cols, c, (-1, 1))
    requires n3 == n2 + Step(rows, cols, c, (1, 1))
    requires n4 == n3 + Step(rows, cols, c, (1, -1))
    requires n5 == n4 + Step(rows, cols, c, (-1, 0))
    requires n6 == n5 + Step(rows, cols, c, (1, 0))
    requires n7 == n6 + Step(rows, cols, c, (0, -1))
    requires n8 == n7 + Step(rows, cols, c, (0, 1))
    ensures n8 == Neighbours(rows, cols, c)
  {
    NeighboursUnrolled(rows, cols, c);
    var rest := Step(rows, cols, c, (0, 1));
    assert n8 == n7 + rest;
    AppendAssoc(n6, Step(rows, cols, c, (0, -1)), rest);
    rest := Step(rows, cols, c, (0, -1)) + rest;
    assert n8 == n6 + rest;
    AppendAssoc(n5, Step(rows, cols, c, (1, 0)), rest);
    rest := Step(rows, cols, c, (1, 0)) + rest;
    assert n8 == n5 + rest;
    AppendAssoc(n4, Step(rows, cols, c, (-1, 0)), rest);
    rest := Step(rows, cols, c, (-1, 0)) + rest;
    assert n8 == n4 + rest;
    AppendAssoc(n3, Step(rows, cols, c, (1, -1)), rest);
    rest := Step(rows, cols, c, (1, -1)) + rest;
    assert n8 == n3 + rest;
    AppendAssoc(n2, Step(rows, cols, c, (1, 1)), rest);
    rest := Step(rows, cols, c, (1, 1)) + rest;
    assert n8 == n2 + rest;
    AppendAssoc(n1, Step(rows, cols, c, (-1, 1)), rest);
    rest := Step(rows, cols, c, (-1, 1)) + rest;
    assert n8 == n1 + rest;
    AppendAssoc(n0, Step(rows, cols, c, (-1, -1)), rest);
    rest := Step(rows, cols, c, (-1, -1)) + rest;
    assert n8 == n0 + rest;
  }

  lemma AppendAssoc<T>(a: seq<T>, b: seq<T>, c: seq<T>)
    ensures (a + b) + c == a + (b + c)
  {
  }

  /** getNeighbours: tests each of the eight directions against the board's height and
      the length of its first row, pushing the cells that are inside. */
  method GetNeighbours(board2DArr: seq<seq<string>>, i: int, j: int) returns (neighbours: seq<Cell>)
    requires |board2DArr| > 0
    requires InGrid(|board2DArr|, |board2DArr[0]|, (i, j))
    ensures neighbours == Neighbours(|board2DArr|, |board2DArr[0]|, (i, j))
    ensures forall q :: q in neighbours <==> InGrid(|board2DArr|, |board2DArr[0]|, q) && Adjacent((i, j), q)
    ensures (i, j) !in neighbours && NoDuplicates(neighbours) && |neighbours| <= 8
  {
    var rows, cols, c := |board2DArr|, |board2DArr[0]|, (i, j);
    neighbours := [];
    ghost var n0 := neighbours;
    if i > 0 && j > 0 {
      neighbours := neighbours + [(i - 1, j - 1)];
    }
    ghost var n1 := neighbours;
    PushStep(rows, cols, c, (-1, -1), n0, n1, i > 0 && j > 0);
    if i > 0 && j < cols - 1 {
      neighbours := neighbours + [(i - 1, j + 1)];
    }
    ghost var n2 := neighbours;
    PushStep(rows, cols, c, (-1, 1), n1, n2, i > 0 && j < cols - 1);
    if i < rows - 1 && j < cols - 1 {
      neighbours := neighbours + [(i + 1, j + 1)];
    }
    ghost var n3 := neighbours;
    PushStep(rows, cols, c, (1, 1), n2, n3, i < rows - 1 && j < cols - 1);
    if i < rows - 1 && j > 0 {
      neighbours := neighbours + [(i + 1, j - 1)];
    }
    ghost var n4 := neighbours;
    PushStep(rows, cols, c, (1, -1), n3, n4, i < rows - 1 && j > 0);
    if i > 0 {
      neighbours := neighbours + [(i - 1, j)];
    }
    ghost var n5 := neighbours;
    PushStep(rows, cols, c, (-1, 0), n4, n5, i > 0);
    if i < rows - 1 {
      neighbours := neighbours + [(i + 1, j)];
    }
    ghost var n6 := neighbours;
    PushStep(rows, cols, c, (1, 0), n5, n6, i < rows - 1);
    if j > 0 {
      neighbours := neighbours + [(i, j - 1)];
    }
    ghost var n7 := neighbours;
    PushStep(rows, cols, c, (0, -1), n6, n7, j > 0);
    if j < cols - 1 {
      neighbours := neighbours + [(i, j + 1)];
    }
    ghost var n8 := neighbours;
    PushStep(rows, cols, c, (0, 1), n7, n8, j < cols - 1);
    NeighboursAssembled(rows, cols, c, n0, n1, n2, n3, n4, n5, n6, n7, n8);
    NeighboursExact(rows, cols, c);
  }
}

/** A two-dimensional bucket grid for finding the objects near a point, with a lazy iterator. */
module Gridders {
  import opened Arithmetic

  /** One bucket: the objects put into it, newest first. */
  datatype Cell<T> = Null | Cell(item: T, next: Cell<T>)

  function Objects<T>(c: Cell<T>): seq<T> {
    match c
    case Null => []
    case Cell(item, next) => [item] + Objects(next)
  }

  function Clamp(i: int, count: int): int {
    var low := if i > 0 then i else 0;
    if low < count - 1 then low else count - 1
  }

  datatype Frame = Frame(x0: real, y0: real, pixelsPerCell: real, width: int, height: int) {
    ghost predicate Valid() {
      pixelsPerCell > 0.0 && width >= 0 && height >= 0
    }

    /** A point query needs a cell to look at. */
    predicate HasCells() {
      width > 0 && height > 0
    }

    function Column(x: real): int
      requires pixelsPerCell > 0.0
    {
      Truncate((x - x0) / pixelsPerCell)
    }

    function Row(y: real): int
      requires pixelsPerCell > 0.0
    {
      Truncate((y - y0) / pixelsPerCell)
    }
  }

  /** One call of add. */
  datatype Entry<T> = Entry(x: real, y: real, item: T)

  predicate InCell<T>(f: Frame, e: Entry<T>, iy: int, ix: int)
    requires f.Valid()
  {
    f.Row(e.y) == iy && f.Column(e.x) == ix
  }

  /** The entry falls on the grid, so add keeps it. */
  predicate Kept<T>(f: Frame, e: Entry<T>)
    requires f.Valid()
  {
    0 <= f.Row(e.y) < f.height && 0 <= f.Column(e.x) < f.width
  }

  /** What a cell holds after a run of add calls, newest first. */
  ghost function Bucket<T>(f: Frame, log: seq<Entry<T>>, iy: int, ix: int): seq<T>
    requires f.Valid()
  {
    if log == [] then []
    else
      var e := log[|log| - 1];
      (if InCell(f, e, iy, ix) then [e.item] else []) + Bucket(f, log[..|log| - 1], iy, ix)
  }

  /** An inclusive rectangle of cells, empty if its corners are swapped. */
  datatype Rect = Rect(ix0: int, ix1: int, iy0: int, iy1: int) {
    ghost predicate On(f: Frame) {
      0 <= ix0 < f.width && ix1 < f.width && 0 <= iy0 < f.height && iy1 < f.height
    }

    /** The cells an iterator over the rectangle visits: it looks at its first cell, and at the first column of every
        row it comes to, without a check. */
    function Swept(): Rect {
      if iy0 > iy1 then Rect(ix0, ix0, iy0, iy0)
      else if ix0 > ix1 then Rect(ix0, ix0, iy0, iy1)
      else this
    }
  }

  /** The cells a query looks at. */
  function Query(f: Frame, x: real, y: real, range: real): Rect
    requires f.Valid()
  {
    Rect(Clamp(f.Column(x - range), f.width), Clamp(f.Column(x + range), f.width),
         Clamp(f.Row(y - range), f.height), Clamp(f.Row(y + range), f.height))
  }

  // ----- the full scan -----

  predicate InRect<T>(f: Frame, r: Rect, e: Entry<T>)
    requires f.Valid()
  {
    r.iy0 <= f.Row(e.y) <= r.iy1 && r.ix0 <= f.Column(e.x) <= r.ix1
  }

  /** Looks at every add call and takes the objects that fall in the rectangle. */
  ghost function Scan<T>(f: Frame, log: seq<Entry<T>>, r: Rect): seq<T>
    requires f.Valid()
  {
    if log == [] then []
    else
      var e := log[|log| - 1];
      Scan(f, log[..|log| - 1], r) + if InRect(f, r, e) then [e.item] else []
  }

  lemma {:induction false} Scanned<T>(f: Frame, log: seq<Entry<T>>, r: Rect, k: nat)
    requires f.Valid() && k < |log| && InRect(f, r, log[k])
    ensures log[k].item in Scan(f, log, r)
  {
    if k < |log| - 1 { Scanned(f, log[..|log| - 1], r, k); }
  }

  // ----- the iterator's order -----

  /** What is left from cell (iy, ix) on, cell by cell and row by row. */
  ghost function From<T>(f: Frame, log: seq<Entry<T>>, r: Rect, iy: int, ix: int): seq<T>
    requires f.Valid()
    decreases r.iy1 - iy, r.ix1 - ix
  {
    if ix > r.ix1 then
      if iy + 1 > r.iy1 then [] else Bucket(f, log, iy + 1, r.ix0) + From(f, log, r, iy + 1, r.ix0 + 1)
    else if iy > r.iy1 then []
    else Bucket(f, log, iy, ix) + From(f, log, r, iy, ix + 1)
  }

  /** Everything an iterator over the rectangle yields. */
  ghost function Yielded<T>(f: Frame, log: seq<Entry<T>>, r: Rect): seq<T>
    requires f.Valid()
  {
    Bucket(f, log, r.iy0, r.ix0) + From(f, log, r, r.iy0, r.ix0 + 1)
  }

  /** Where the loop of findNext looks next, after a possible change of row. */
  lemma Onward<T>(f: Frame, log: seq<Entry<T>>, r: Rect, iy: int, ix: int)
    requires f.Valid()
    ensures var iy', ix' := if ix > r.ix1 then iy + 1 else iy, if ix > r.ix1 then r.ix0 else ix;
            From(f, log, r, iy, ix)
            == if iy' > r.iy1 then [] else Bucket(f, log, iy', ix') + From(f, log, r, iy', ix' + 1)
  {}

  /** Entry e is still ahead of the iterator at cell (iy, ix). */
  predicate Ahead<T>(f: Frame, r: Rect, e: Entry<T>, iy: int, ix: int)
    requires f.Valid()
  {
    InRect(f, r, e) && (f.Row(e.y) > iy || (f.Row(e.y) == iy && f.Column(e.x) >= ix))
  }

  ghost function Once<T>(condition: bool, item: T): multiset<T> {
    if condition then multiset{item} else multiset{}
  }

  lemma BucketAdded<T>(f: Frame, log: seq<Entry<T>>, e: Entry<T>, iy: int, ix: int)
    requires f.Valid()
    ensures multiset(Bucket(f, log + [e], iy, ix))
         == multiset(Bucket(f, log, iy, ix)) + Once(InCell(f, e, iy, ix), e.item)
  {
    assert (log + [e])[..|log|] == log;
  }

  lemma {:induction false} FromAdded<T>(f: Frame, log: seq<Entry<T>>, e: Entry<T>, r: Rect, iy: int, ix: int)
    requires f.Valid() && r.ix0 <= r.ix1 && r.ix0 <= ix && r.iy0 <= iy
    ensures multiset(From(f, log + [e], r, iy, ix))
         == multiset(From(f, log, r, iy, ix)) + Once(Ahead(f, r, e, iy, ix), e.item)
    decreases r.iy1 - iy, r.ix1 - ix
  {
    hide From, Bucket;
    var iy', ix' := if ix > r.ix1 then iy + 1 else iy, if ix > r.ix1 then r.ix0 else ix;
    Onward(f, log, r, iy, ix);
    Onward(f, log + [e], r, iy, ix);
    assert Ahead(f, r, e, iy, ix) == Ahead(f, r, e, iy', ix');
    if iy' <= r.iy1 {
      FromAdded(f, log, e, r, iy', ix' + 1);
      VisitAdded(f, log, e, r, iy', ix');
    }
  }

  lemma VisitAdded<T>(f: Frame, log: seq<Entry<T>>, e: Entry<T>, r: Rect, iy: int, ix: int)
    requires f.Valid() && r.iy0 <= iy <= r.iy1 && r.ix0 <= ix <= r.ix1
    requires multiset(From(f, log + [e], r, iy, ix + 1))
          == multiset(From(f, log, r, iy, ix + 1)) + Once(Ahead(f, r, e, iy, ix + 1), e.item)
    ensures multiset(Bucket(f, log + [e], iy, ix) + From(f, log + [e], r, iy, ix + 1))
         == multiset(Bucket(f, log, iy, ix) + From(f, log, r, iy, ix + 1)) + Once(Ahead(f, r, e, iy, ix), e.item)
  {
    BucketAdded(f, log, e, iy, ix);
    AheadStep(f, r, e, iy, ix);
  }

  lemma AheadStep<T>(f: Frame, r: Rect, e: Entry<T>, iy: int, ix: int)
    requires f.Valid() && r.iy0 <= iy <= r.iy1 && r.ix0 <= ix <= r.ix1
    ensures Once(Ahead(f, r, e, iy, ix), e.item)
         == Once(InCell(f, e, iy, ix), e.item) + Once(Ahead(f, r, e, iy, ix + 1), e.item)
  {}

  lemma {:induction false} FromEmpty<T>(f: Frame, r: Rect, iy: int, ix: int)
    requires f.Valid()
    ensures From<T>(f, [], r, iy, ix) == []
    decreases r.iy1 - iy, r.ix1 - ix
  {
    Onward<T>(f, [], r, iy, ix);
    if ix > r.ix1 {
      if iy + 1 <= r.iy1 { FromEmpty<T>(f, r, iy + 1, r.ix0 + 1); }
    } else if iy <= r.iy1 {
      FromEmpty<T>(f, r, iy, ix + 1);
    }
  }

  lemma {:induction false} ProperAgrees<T>(f: Frame, log: seq<Entry<T>>, r: Rect)
    requires f.Valid() && r.ix0 <= r.ix1 && r.iy0 <= r.iy1
    ensures multiset(Yielded(f, log, r)) == multiset(Scan(f, log, r))
  {
    if log == [] {
      FromEmpty<T>(f, r, r.iy0, r.ix0 + 1);
    } else {
      var n := |log| - 1;
      assert log == log[..n] + [log[n]];
      ProperAgrees(f, log[..n], r);
      FromAdded(f, log[..n], log[n], r, r.iy0, r.ix0 + 1);
      VisitAdded(f, log[..n], log[n], r, r.iy0, r.ix0);
    }
  }

  lemma {:induction false} FirstColumn<T>(f: Frame, log: seq<Entry<T>>, r: Rect, iy: int)
    requires f.Valid() && r.ix0 > r.ix1
    ensures From(f, log, r, iy, r.ix0 + 1) == From(f, log, Rect(r.ix0, r.ix0, r.iy0, r.iy1), iy, r.ix0 + 1)
    decreases r.iy1 - iy
  {
    if iy + 1 <= r.iy1 { FirstColumn(f, log, r, iy + 1); }
  }

  /** Row by row, the grid yields exactly what the full scan finds in the cells swept, each add call once. */
  lemma {:induction false} AgreesWithScan<T>(f: Frame, log: seq<Entry<T>>, r: Rect)
    requires f.Valid()
    ensures multiset(Yielded(f, log, r)) == multiset(Scan(f, log, r.Swept()))
  {
    hide Yielded, Scan;
    ProperAgrees(f, log, r.Swept());
    SweptYields(f, log, r);
  }

  lemma SweptYields<T>(f: Frame, log: seq<Entry<T>>, r: Rect)
    requires f.Valid()
    ensures Yielded(f, log, r) == Yielded(f, log, r.Swept())
  {
    hide Bucket;
    if r.ix0 > r.ix1 { FirstColumn(f, log, r, r.iy0); }
  }

  // ----- nothing near is missed -----

  lemma PositiveProduct(x: real, y: real)
    ensures x > 0.0 && y > 0.0 ==> x * y > 0.0
  {}

  lemma PositiveFactor(x: real, y: real)
    requires y > 0.0 && x * y > 0.0
    ensures x > 0.0
  {}

  lemma CellMonotone(a: real, b: real, origin: real, size: real)
    requires size > 0.0 && a <= b
    ensures Truncate((a - origin) / size) <= Truncate((b - origin) / size)
  {
    var p, q := (a - origin) / size, (b - origin) / size;
    assert p * size == a - origin && q * size == b - origin;
    assert (p - q) * size == a - b;
    PositiveProduct(p - q, size);
    assert p <= q;
  }

  lemma QueryOnGrid(f: Frame, x: real, y: real, range: real)
    requires f.Valid() && f.HasCells()
    ensures Query(f, x, y, range).On(f)
  {}

  /** With a range that is not negative the iterator visits the cells of the query and no others. */
  lemma QuerySwept(f: Frame, x: real, y: real, range: real)
    requires f.Valid()
    ensures range >= 0.0 ==> Query(f, x, y, range).Swept() == Query(f, x, y, range)
  {
    if range >= 0.0 {
      CellMonotone(x - range, x + range, f.x0, f.pixelsPerCell);
      CellMonotone(y - range, y + range, f.y0, f.pixelsPerCell);
    }
  }

  /** An object on the grid within range of the query in both coordinates is in the query's rectangle. */
  lemma NearIsCovered<T>(f: Frame, e: Entry<T>, x: real, y: real, range: real)
    requires f.Valid() && Kept(f, e)
    requires x - range <= e.x <= x + range && y - range <= e.y <= y + range
    ensures InRect(f, Query(f, x, y, range), e)
  {
    CellMonotone(x - range, e.x, f.x0, f.pixelsPerCell);
    CellMonotone(e.x, x + range, f.x0, f.pixelsPerCell);
    CellMonotone(y - range, e.y, f.y0, f.pixelsPerCell);
    CellMonotone(e.y, y + range, f.y0, f.pixelsPerCell);
  }

  /** The grid, a superset of the near objects: every kept object within range is yielded. */
  lemma NearIsYielded<T>(f: Frame, log: seq<Entry<T>>, k: nat, x: real, y: real, range: real)
    requires f.Valid() && k < |log| && Kept(f, log[k])
    requires x - range <= log[k].x <= x + range && y - range <= log[k].y <= y + range
    ensures log[k].item in Yielded(f, log, Query(f, x, y, range))
  {
    var r := Query(f, x, y, range);
    NearIsCovered(f, log[k], x, y, range);
    assert r.Swept() == r;
    Scanned(f, log, r, k);
    AgreesWithScan(f, log, r);
    assert log[k].item in multiset(Scan(f, log, r));
  }

  lemma CellNotNegative(a: real, origin: real, size: real)
    requires size > 0.0 && origin <= a
    ensures Truncate((a - origin) / size) >= 0
  {
    var q := (a - origin) / size;
    assert q * size == a - origin;
    if q < 0.0 { PositiveProduct(-q, size); }
  }

  lemma BelowNext(p: real, q: real)
    requires q >= 0.0 && Truncate(p) <= Truncate(q)
    ensures p < q + 1.0
  {}

  lemma BeforeNextCell(a: real, b: real, origin: real, size: real)
    requires size > 0.0 && origin <= b && Truncate((a - origin) / size) <= Truncate((b - origin) / size)
    ensures a < b + size
  {
    var p, q := (a - origin) / size, (b - origin) / size;
    assert p * size == a - origin && q * size == b - origin;
    if q < 0.0 { PositiveProduct(-q, size); }
    BelowNext(p, q);
    hide Truncate;
    PositiveProduct(q + 1.0 - p, size);
    assert (q + 1.0 - p) * size == b - origin + size - (a - origin);
  }

  /** What the cells between lo and hi hold in one coordinate is less than a cell away from them. */
  lemma CellIsNear(a: real, lo: real, x: real, hi: real, origin: real, size: real, count: int)
    requires size > 0.0 && lo <= x <= hi && origin <= x && origin <= a && Truncate((x - origin) / size) < count
    requires Clamp(Truncate((lo - origin) / size), count) <= Truncate((a - origin) / size)
          <= Clamp(Truncate((hi - origin) / size), count)
    ensures lo - size < a < hi + size
  {
    hide Truncate;
    CellMonotone(lo, x, origin, size);
    CellNotNegative(a, origin, size);
    CellNotNegative(hi, origin, size);
    BeforeNextCell(lo, a, origin, size);
    BeforeNextCell(a, hi, origin, size);
  }

  /** The point is in a cell of the grid. */
  predicate OnGrid(f: Frame, x: real, y: real)
    requires f.Valid()
  {
    f.x0 <= x && f.Column(x) < f.width && f.y0 <= y && f.Row(y) < f.height
  }

  /** And not much more: what a query on the grid finds there is less than a cell out of range. */
  lemma CoveredIsNear<T>(f: Frame, e: Entry<T>, x: real, y: real, range: real)
    requires f.Valid() && range >= 0.0 && OnGrid(f, x, y) && f.x0 <= e.x && f.y0 <= e.y
    requires InRect(f, Query(f, x, y, range).Swept(), e)
    ensures x - range - f.pixelsPerCell < e.x < x + range + f.pixelsPerCell
    ensures y - range - f.pixelsPerCell < e.y < y + range + f.pixelsPerCell
  {
    QuerySwept(f, x, y, range);
    CellIsNear(e.x, x - range, x, x + range, f.x0, f.pixelsPerCell, f.width);
    CellIsNear(e.y, y - range, y, y + range, f.y0, f.pixelsPerCell, f.height);
  }

  class Gridder<T> {
    const x0: real
    const y0: real
    const pixelsPerCell: real
    var x1: real
    var y1: real
    const width: int
    const height: int
    const cells: array2<Cell<T>>
    ghost var log: seq<Entry<T>>   // the add calls so far

    ghost function Grid(): Frame {
      Frame(x0, y0, pixelsPerCell, width, height)
    }

    ghost predicate Valid()
      reads this, cells
    {
      // named, so that a goal of this predicate is taken whole and not split into its parts
      var filled :=
        Grid().Valid() && cells.Length0 == height && cells.Length1 == width
        && forall iy, ix | 0 <= iy < height && 0 <= ix < width ::
             Objects(cells[iy, ix]) == Bucket(Grid(), log, iy, ix);
      filled
    }

    constructor (x0: real, y0: real, x1: real, y1: real, ppCell: real)
      requires ppCell > 0.0 && x0 - x1 < 2.0 * ppCell && y0 - y1 < 2.0 * ppCell
      ensures Valid() && fresh(cells) && log == []
      ensures this.x0 == x0 && this.y0 == y0 && pixelsPerCell == ppCell
      ensures width == Truncate((x1 - x0) / ppCell + 1.0) && height == Truncate((y1 - y0) / ppCell + 1.0)
      ensures this.x1 == x0 + ppCell * width as real && this.y1 == y0 + ppCell * height as real
      ensures if x0 <= x1 then x1 < this.x1 <= x1 + ppCell else width == 0
      ensures if y0 <= y1 then y1 < this.y1 <= y1 + ppCell else height == 0
    {
      CellCount(x0, x1, ppCell);
      CellCount(y0, y1, ppCell);
      this.x0 := x0;
      this.y0 := y0;
      this.pixelsPerCell := ppCell;
      this.width := Truncate((x1 - x0) / ppCell + 1.0);
      this.height := Truncate((y1 - y0) / ppCell + 1.0);
      this.x1 := x0 + ppCell * Truncate((x1 - x0) / ppCell + 1.0) as real;
      this.y1 := y0 + ppCell * Truncate((y1 - y0) / ppCell + 1.0) as real;
      this.log := [];
      cells := new Cell<T>[Truncate((y1 - y0) / ppCell + 1.0), Truncate((x1 - x0) / ppCell + 1.0)]((i, j) => Null);
    }

    method Add(x: real, y: real, item: T)
      requires Valid()
      modifies cells, this`log
      ensures Valid() && log == old(log) + [Entry(x, y, item)]
    {
      var ix := Truncate((x - x0) / pixelsPerCell);
      var iy := Truncate((y - y0) / pixelsPerCell);
      ghost var e := Entry(x, y, item);
      assert (log + [e])[..|log|] == log;
      log := log + [e];
      if ix >= 0 && iy >= 0 && ix < width && iy < height {
        cells[iy, ix] := Cell(item, cells[iy, ix]);
      }
    }

    method Find(x: real, y: real, range: real) returns (it: Iterator<T>)
      requires Valid() && Grid().HasCells()
      ensures fresh(it) && it.Valid() && it.outer == this
      ensures it.Rest() == Yielded(Grid(), log, Query(Grid(), x, y, range))
    {
      it := new Iterator(this, x, y, range);
    }
  }

  /** The grid covers the given span with whole cells, overshooting by at most one; it has none if its ends are
      swapped by less than two cells. */
  lemma CellCount(a: real, b: real, size: real)
    requires size > 0.0 && a - b < 2.0 * size
    ensures var n := Truncate((b - a) / size + 1.0);
            if a <= b then n >= 1 && b < a + size * n as real <= b + size else n == 0
  {
    if a <= b { CellsAhead(a, b, size); } else { CellsBehind(a, b, size); }
  }

  lemma CellsAhead(a: real, b: real, size: real)
    requires a <= b && size > 0.0
    ensures Truncate((b - a) / size + 1.0) >= 1
    ensures b < a + size * Truncate((b - a) / size + 1.0) as real <= b + size
  {
    var q := (b - a) / size;
    assert q * size == b - a;
    PositiveProduct(-q, size);
    assert -q * size == a - b;
    assert q >= 0.0;
    var n := Truncate(q + 1.0) as real;
    assert q < n <= q + 1.0;
    assert size * q < size * n <= size * (q + 1.0);
  }

  lemma CellsBehind(a: real, b: real, size: real)
    requires size > 0.0 && b < a < b + 2.0 * size
    ensures Truncate((b - a) / size + 1.0) == 0
  {
    var q := (b - a) / size;
    assert q * size == b - a;
    assert (-q) * size == a - b && (q + 2.0) * size == b - a + 2.0 * size;
    PositiveFactor(-q, size);
    PositiveFactor(q + 2.0, size);
    assert -2.0 < q < 0.0;
  }

  class Iterator<T> {
    const outer: Gridder<T>
    const ix0: int
    const ix1: int
    const iy0: int
    const iy1: int
    var ix: int
    var iy: int
    var c: Cell<T>

    ghost function Area(): Rect {
      Rect(ix0, ix1, iy0, iy1)
    }

    ghost predicate Valid()
      reads this, outer, outer.cells
    {
      outer.Valid() && Area().On(outer.Grid()) && iy0 <= iy && ix0 <= ix
    }

    /** The objects still to come. */
    ghost function Rest(): seq<T>
      requires Valid()
      reads this, outer, outer.cells
    {
      Objects(c) + From(outer.Grid(), outer.log, Area(), iy, ix + 1)
    }

    constructor (grid: Gridder<T>, x: real, y: real, range: real)
      requires grid.Valid() && grid.Grid().HasCells()
      ensures Valid() && outer == grid
      ensures Area() == Query(grid.Grid(), x, y, range)
      ensures Rest() == Yielded(grid.Grid(), grid.log, Area())
    {
      QueryOnGrid(grid.Grid(), x, y, range);
      var i0 := Truncate((x - range - grid.x0) / grid.pixelsPerCell);
      var j0 := Truncate((y - range - grid.y0) / grid.pixelsPerCell);
      var i1 := Truncate((x + range - grid.x0) / grid.pixelsPerCell);
      var j1 := Truncate((y + range - grid.y0) / grid.pixelsPerCell);
      outer := grid;
      ix0 := Clamp(i0, grid.width);
      ix1 := Clamp(i1, grid.width);
      iy0 := Clamp(j0, grid.height);
      iy1 := Clamp(j1, grid.height);
      ix := Clamp(i0, grid.width);
      iy := Clamp(j0, grid.height);
      c := grid.cells[Clamp(j0, grid.height), Clamp(i0, grid.width)];
    }

    method HasNext() returns (more: bool)
      requires Valid()
      modifies this`ix, this`iy, this`c
      ensures Valid() && Rest() == old(Rest())
      ensures more == (Rest() != []) == c.Cell?
    {
      if c.Null? {
        FindNext();
      }
      more := c.Cell?;
    }

    method Next() returns (item: T)
      requires Valid() && c.Cell?
      modifies this`ix, this`iy, this`c
      ensures Valid() && old(Rest()) == [item] + Rest()
    {
      item := c.item;
      FindNext();
    }

    method FindNext()
      requires Valid()
      modifies this`ix, this`iy, this`c
      ensures Valid()
      ensures old(c).Null? ==> Rest() == old(Rest())
      ensures old(c).Cell? ==> old(Rest()) == [old(c).item] + Rest()
      ensures Rest() == [] <==> c.Null?
    {
      hide From;
      ghost var rest := From(outer.Grid(), outer.log, Area(), iy, ix + 1);
      if c.Cell? {
        assert Objects(c) + rest == [c.item] + (Objects(c.next) + rest);
        c := c.next;
      }
      if c.Cell? {
        return;
      }
      NextCell();
      assert rest == Rest();
    }

    /** The loop of findNext: on to the next cell that holds an object. */
    method NextCell()
      requires Valid() && c.Null?
      modifies this`ix, this`iy, this`c
      ensures Valid() && Rest() == From(outer.Grid(), outer.log, Area(), old(iy), old(ix) + 1)
      ensures Rest() == [] <==> c.Null?
    {
      hide From, Bucket;
      ghost var f, log, r := outer.Grid(), outer.log, Area();
      ghost var rest := From(f, log, r, iy, ix + 1);
      ix := ix + 1;
      while true
        invariant Valid() && c.Null?
        invariant rest == From(f, log, r, iy, ix)
        decreases iy1 - iy, ix1 - ix
      {
        Onward(f, log, r, iy, ix);
        if ix > ix1 {
          iy := iy + 1;
          ix := ix0;
        }
        if iy > iy1 {
          Onward(f, log, r, iy, ix + 1);
          break;
        }
        c := outer.cells[iy, ix];
        assert Objects(c) == Bucket(f, log, iy, ix);
        if c.Cell? {
          break;
        }
        assert rest == [] + From(f, log, r, iy, ix + 1);
        ix := ix + 1;
      }
    }
  }

  method Collect<T>(it: Iterator<T>) returns (found: seq<T>)
    requires it.Valid()
    modifies it
    ensures found == old(it.Rest())
  {
    ghost var all := it.Rest();
    found := [];
    var more := it.HasNext();
    while more
      invariant it.Valid() && all == found + it.Rest()
      invariant more == (it.Rest() != []) == it.c.Cell?
      decreases |it.Rest()|
    {
      var item := it.Next();
      assert found + ([item] + it.Rest()) == (found + [item]) + it.Rest();
      found := found + [item];
      more := it.HasNext();
    }
  }

  /** The loop around find: every object in the query's cells, each add call once. */
  method FindAll<T>(grid: Gridder<T>, x: real, y: real, range: real) returns (found: seq<T>)
    requires grid.Valid() && grid.Grid().HasCells()
    ensures multiset(found) == multiset(Scan(grid.Grid(), grid.log, Query(grid.Grid(), x, y, range).Swept()))
    ensures range >= 0.0 ==> Query(grid.Grid(), x, y, range).Swept() == Query(grid.Grid(), x, y, range)
    ensures forall k | 0 <= k < |grid.log| ::
              var e := grid.log[k];
              Kept(grid.Grid(), e) && x - range <= e.x <= x + range && y - range <= e.y <= y + range
              ==> e.item in found
  {
    ghost var f, log := grid.Grid(), grid.log;
    ghost var r := Query(f, x, y, range);
    QuerySwept(f, x, y, range);
    AgreesWithScan(f, log, r);
    var it := grid.Find(x, y, range);
    found := Collect(it);
    forall k | 0 <= k < |log| && Kept(f, log[k])
               && x - range <= log[k].x <= x + range && y - range <= log[k].y <= y + range
      ensures log[k].item in found
    {
      NearIsYielded(f, log, k, x, y, range);
    }
  }
}

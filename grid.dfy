/**
 * The grid scan shared by the three marker generators.
 *
 * Each generator runs `for (y = stepY; y < height - stepY; y += stepY)` around
 * `for (x = stepX; x < width - stepX; x += stepX)` and, at each grid point,
 * either appends one feature or nothing.  The functions below say what the
 * two loops have appended when their variables reach a given value, as a
 * function of the per-point decision `cell`; the lemmas say which points are
 * visited, in which order, and which features come out.
 */
module Grid {
  import opened Wrappers
  import opened Marker

  type Cell = (int, int) -> Option<Feature>

  function Emit(o: Option<Feature>): seq<Feature>
  {
    if o.Some? then [o.value] else []
  }

  /** What the inner loop has appended to row y when its variable reaches x. */
  function RowBefore(cell: Cell, stepX: int, y: int, x: int): seq<Feature>
    requires stepX > 0
    decreases x
  {
    if x <= stepX then [] else RowBefore(cell, stepX, y, x - stepX) + Emit(cell(x - stepX, y))
  }

  /** The value of v when `for (v = start; v < bound; v += step)` stops. */
  function LoopEnd(start: int, bound: int, step: int): int
    requires step > 0
    decreases bound - start
  {
    if start < bound then LoopEnd(start + step, bound, step) else start
  }

  /** The whole of row y. */
  function Row(cell: Cell, stepX: int, width: int, y: int): seq<Feature>
    requires stepX > 0
  {
    RowBefore(cell, stepX, y, LoopEnd(stepX, width - stepX, stepX))
  }

  /** What the outer loop has appended when its variable reaches y. */
  function ScanBefore(cell: Cell, stepX: int, stepY: int, width: int, y: int): seq<Feature>
    requires stepX > 0 && stepY > 0
    decreases y
  {
    if y <= stepY then [] else ScanBefore(cell, stepX, stepY, width, y - stepY) + Row(cell, stepX, width, y - stepY)
  }

  /** The whole double loop. */
  function Features(cell: Cell, stepX: int, stepY: int, width: int, height: int): seq<Feature>
    requires stepX > 0 && stepY > 0
  {
    ScanBefore(cell, stepX, stepY, width, LoopEnd(stepY, height - stepY, stepY))
  }

  /** One more iteration of `for (v = start; v < bound; v += step)` stops where the loop does. */
  lemma LoopEndStep(start: int, bound: int, step: int)
    requires step > 0 && start < bound
    ensures LoopEnd(start + step, bound, step) == LoopEnd(start, bound, step)
  {
  }

  /**
   * One iteration of the inner loop at x: the row so far grows by the cell's
   * feature, if any, and reaches x + stepX.
   */
  lemma RowStep(cell: Cell, stepX: int, y: int, x: int, row: seq<Feature>, feature: Option<Feature>)
    requires 0 < stepX <= x
    requires row == RowBefore(cell, stepX, y, x) && feature == cell(x, y)
    ensures RowBefore(cell, stepX, y, x + stepX) == if feature.Some? then row + [feature.value] else row
  {
    assert RowBefore(cell, stepX, y, x + stepX) == row + Emit(feature);
    if feature.None? {
      assert row + [] == row;
    }
  }

  /** One iteration of the outer loop at y: the list grows by row y. */
  lemma ScanStep(cell: Cell, stepX: int, stepY: int, width: int, y: int, before: seq<Feature>, row: seq<Feature>)
    requires 0 < stepX && 0 < stepY <= y
    requires before == ScanBefore(cell, stepX, stepY, width, y) && row == Row(cell, stepX, width, y)
    ensures ScanBefore(cell, stepX, stepY, width, y + stepY) == before + row
  {
  }

  /** v is a grid coordinate: a positive multiple of step below dim - step. */
  predicate OnGrid(step: int, dim: int, v: int)
  {
    0 < step <= v < dim - step && v % step == 0
  }

  /** The cell puts every feature it emits at its own grid point. */
  ghost predicate Positioned(cell: Cell)
  {
    forall x, y :: cell(x, y).Some? ==> cell(x, y).value.x == x && cell(x, y).value.y == y
  }

  /** Every feature `fine` emits, `coarse` emits too. */
  ghost predicate Subsumes(coarse: Cell, fine: Cell)
  {
    forall x, y :: fine(x, y).Some? ==> coarse(x, y) == fine(x, y)
  }

  // ---------------------------------------------------------------------------
  // Euclidean division facts

  lemma DivModUnique(a: int, m: int, q: int, r: int)
    requires m > 0 && 0 <= r < m && a == q * m + r
    ensures a % m == r && a / m == q
  {
    var q', r' := a / m, a % m;
    assert a == q' * m + r';
    assert (q - q') * m == r' - r;
    if q > q' {
      assert (q - q') * m >= m by { MulAtLeast(q - q', m); }
    } else if q < q' {
      assert (q' - q) * m >= m by { MulAtLeast(q' - q, m); }
    }
  }

  lemma MulAtLeast(k: int, m: int)
    requires k >= 1 && m > 0
    ensures k * m >= m
  {
  }

  lemma ModShift(a: int, m: int)
    requires m > 0
    ensures (a + m) % m == a % m
  {
    var q, r := a / m, a % m;
    assert a == q * m + r;
    assert a + m == (q + 1) * m + r;
    DivModUnique(a + m, m, q + 1, r);
  }

  /** Below a multiple e of m, e - v is a multiple of m exactly when v is. */
  lemma ModComplement(e: int, v: int, m: int)
    requires m > 0 && e % m == 0
    ensures (e - v) % m == 0 <==> v % m == 0
  {
    var qe, q, r := e / m, v / m, v % m;
    assert e == qe * m;
    assert v == q * m + r;
    if r == 0 {
      assert e - v == (qe - q) * m;
      DivModUnique(e - v, m, qe - q, 0);
    } else {
      assert e - v == (qe - q - 1) * m + (m - r);
      DivModUnique(e - v, m, qe - q - 1, m - r);
    }
  }

  /** A positive multiple of m is at least m. */
  lemma PositiveMultiple(v: int, m: int)
    requires m > 0 && v > 0 && v % m == 0
    ensures v >= m
  {
    if v < m {
      DivModUnique(v, m, 0, v);
    }
  }

  // ---------------------------------------------------------------------------
  // Where a loop stops

  /**
   * The loop starting at start stops at the first value start + k·step that
   * reaches the bound (at start itself when it starts past the bound).
   */
  lemma {:induction false} LoopEndFacts(start: int, bound: int, step: int)
    requires step > 0
    ensures var e := LoopEnd(start, bound, step);
            e >= start && e >= bound && (e - start) % step == 0 && (e == start || e - step < bound)
    decreases bound - start
  {
    if start < bound {
      LoopEndFacts(start + step, bound, step);
      ModShift(LoopEnd(start, bound, step) - start - step, step);
    }
  }

  /** The grid rows or columns: the values 0 < v < LoopEnd(step, dim - step, step) that are multiples of step. */
  lemma GridBelowLoopEnd(step: int, dim: int, v: int)
    requires step > 0
    ensures Behind(v, LoopEnd(step, dim - step, step), step) <==> OnGrid(step, dim, v)
  {
    var e := LoopEnd(step, dim - step, step);
    LoopEndFacts(step, dim - step, step);
    ModShift(e - step, step);
    ModComplement(e, v, step);
    if 0 < v < e && v % step == 0 {
      PositiveMultiple(v, step);
      if e != step && v > e - step {
        DivModUnique(e - v, step, 0, e - v);
      }
    }
  }

  /**
   * `for (v = start; v < bound; v += step)` stops after some number of steps
   * exactly when it starts past the bound or the step is positive: with a
   * zero step the loop variable never moves.
   */
  ghost predicate LoopExits(start: int, bound: int, step: int)
  {
    exists n: nat :: Advance(start, step, n) >= bound
  }

  /** The loop variable after n increments. */
  function Advance(start: int, step: int, n: nat): int
  {
    start + n * step
  }

  lemma LoopExitsIff(start: int, bound: int, step: int)
    ensures LoopExits(start, bound, step) <==> start >= bound || step > 0
  {
    if start >= bound {
      assert Advance(start, step, 0) >= bound;
    } else if step > 0 {
      var n: nat := bound - start;
      MulAtLeast(step, n);
      assert Advance(start, step, n) >= bound;
    } else {
      forall n: nat ensures Advance(start, step, n) < bound {
        assert n * step <= 0 by { MulNonPositive(n, step); }
      }
    }
  }

  lemma MulNonPositive(n: nat, s: int)
    requires s <= 0
    ensures n * s <= 0
  {
  }

  // ---------------------------------------------------------------------------
  // Which features are appended

  /** v is one of the values a loop variable took before reaching y: y - step, y - 2·step, … > 0. */
  predicate Behind(v: int, y: int, step: int)
    requires step > 0
  {
    0 < v < y && (y - v) % step == 0
  }

  lemma BehindFirst(v: int, y: int, step: int)
    requires 0 < y <= step
    ensures !Behind(v, y, step)
  {
    if 0 < v < y {
      DivModUnique(y - v, step, 0, y - v);
    }
  }

  lemma BehindStep(v: int, y: int, step: int)
    requires step > 0
    ensures Behind(v, y, step) <==> v == y - step > 0 || Behind(v, y - step, step)
  {
    ModShift(y - step - v, step);
    if y - step < v < y {
      DivModUnique(y - v, step, 0, y - v);
    }
  }

  lemma {:induction false} RowBeforeMembers(cell: Cell, stepX: int, y: int, x: int, f: Feature)
    requires stepX > 0
    ensures f in RowBefore(cell, stepX, y, x) <==> exists v :: Behind(v, x, stepX) && cell(v, y) == Some(f)
    decreases x
  {
    if x <= stepX {
      if exists v :: Behind(v, x, stepX) && cell(v, y) == Some(f) {
        var v :| Behind(v, x, stepX) && cell(v, y) == Some(f);
        BehindFirst(v, x, stepX);
      }
    } else {
      RowBeforeMembers(cell, stepX, y, x - stepX, f);
      var before := RowBefore(cell, stepX, y, x - stepX);
      assert RowBefore(cell, stepX, y, x) == before + Emit(cell(x - stepX, y));
      if f in RowBefore(cell, stepX, y, x) {
        if f in before {
          var v :| Behind(v, x - stepX, stepX) && cell(v, y) == Some(f);
          BehindStep(v, x, stepX);
        } else {
          BehindStep(x - stepX, x, stepX);
        }
      }
      if exists v :: Behind(v, x, stepX) && cell(v, y) == Some(f) {
        var v :| Behind(v, x, stepX) && cell(v, y) == Some(f);
        BehindStep(v, x, stepX);
      }
    }
  }

  /** A feature is in row y exactly when the cell emits it at a grid column of that row. */
  lemma RowMembers(cell: Cell, stepX: int, width: int, y: int, f: Feature)
    requires stepX > 0
    ensures f in Row(cell, stepX, width, y) <==> exists x :: OnGrid(stepX, width, x) && cell(x, y) == Some(f)
  {
    var e := LoopEnd(stepX, width - stepX, stepX);
    RowBeforeMembers(cell, stepX, y, e, f);
    if f in Row(cell, stepX, width, y) {
      var x :| Behind(x, e, stepX) && cell(x, y) == Some(f);
      GridBelowLoopEnd(stepX, width, x);
    }
    if exists x :: OnGrid(stepX, width, x) && cell(x, y) == Some(f) {
      var x :| OnGrid(stepX, width, x) && cell(x, y) == Some(f);
      GridBelowLoopEnd(stepX, width, x);
    }
  }

  lemma {:induction false} ScanBeforeMembers(cell: Cell, stepX: int, stepY: int, width: int, y: int, f: Feature)
    requires stepX > 0 && stepY > 0
    ensures f in ScanBefore(cell, stepX, stepY, width, y) <==>
            exists v :: Behind(v, y, stepY) && f in Row(cell, stepX, width, v)
    decreases y
  {
    if y <= stepY {
      if exists v :: Behind(v, y, stepY) && f in Row(cell, stepX, width, v) {
        var v :| Behind(v, y, stepY) && f in Row(cell, stepX, width, v);
        BehindFirst(v, y, stepY);
      }
    } else {
      ScanBeforeMembers(cell, stepX, stepY, width, y - stepY, f);
      var before := ScanBefore(cell, stepX, stepY, width, y - stepY);
      assert ScanBefore(cell, stepX, stepY, width, y) == before + Row(cell, stepX, width, y - stepY);
      if f in ScanBefore(cell, stepX, stepY, width, y) {
        if f in before {
          var v :| Behind(v, y - stepY, stepY) && f in Row(cell, stepX, width, v);
          BehindStep(v, y, stepY);
        } else {
          BehindStep(y - stepY, y, stepY);
        }
      }
      if exists v :: Behind(v, y, stepY) && f in Row(cell, stepX, width, v) {
        var v :| Behind(v, y, stepY) && f in Row(cell, stepX, width, v);
        BehindStep(v, y, stepY);
      }
    }
  }

  /** A feature is emitted exactly when the cell emits it at some grid point. */
  lemma FeaturesMembers(cell: Cell, stepX: int, stepY: int, width: int, height: int, f: Feature)
    requires stepX > 0 && stepY > 0
    ensures f in Features(cell, stepX, stepY, width, height) <==>
            exists x, y :: OnGrid(stepX, width, x) && OnGrid(stepY, height, y) && cell(x, y) == Some(f)
  {
    var e := LoopEnd(stepY, height - stepY, stepY);
    assert Features(cell, stepX, stepY, width, height) == ScanBefore(cell, stepX, stepY, width, e);
    ScanBeforeMembers(cell, stepX, stepY, width, e, f);
    if f in Features(cell, stepX, stepY, width, height) {
      var y :| Behind(y, e, stepY) && f in Row(cell, stepX, width, y);
      GridBelowLoopEnd(stepY, height, y);
      RowMembers(cell, stepX, width, y, f);
      var x :| OnGrid(stepX, width, x) && cell(x, y) == Some(f);
    }
    if exists x, y :: OnGrid(stepX, width, x) && OnGrid(stepY, height, y) && cell(x, y) == Some(f) {
      var x, y :| OnGrid(stepX, width, x) && OnGrid(stepY, height, y) && cell(x, y) == Some(f);
      GridBelowLoopEnd(stepY, height, y);
      RowMembers(cell, stepX, width, y, f);
    }
  }


  // ---------------------------------------------------------------------------
  // Order

  lemma ConcatRowMajor(a: seq<Feature>, b: seq<Feature>)
    requires RowMajor(a) && RowMajor(b)
    requires forall i, j :: 0 <= i < |a| && 0 <= j < |b| ==> Precedes(a[i], b[j])
    ensures RowMajor(a + b)
  {
    forall i, j | 0 <= i < j < |a + b| ensures Precedes((a + b)[i], (a + b)[j]) {
      if j < |a| {
      } else if i >= |a| {
        assert (a + b)[i] == b[i - |a|] && (a + b)[j] == b[j - |a|];
      }
    }
  }

  lemma {:induction false} RowBeforeOrdered(cell: Cell, stepX: int, y: int, x: int)
    requires stepX > 0 && Positioned(cell)
    ensures RowMajor(RowBefore(cell, stepX, y, x))
    ensures forall f <- RowBefore(cell, stepX, y, x) :: f.y == y && f.x < x
    decreases x
  {
    if x > stepX {
      RowBeforeOrdered(cell, stepX, y, x - stepX);
      ConcatRowMajor(RowBefore(cell, stepX, y, x - stepX), Emit(cell(x - stepX, y)));
    }
  }

  lemma {:induction false} ScanBeforeOrdered(cell: Cell, stepX: int, stepY: int, width: int, y: int)
    requires stepX > 0 && stepY > 0 && Positioned(cell)
    ensures RowMajor(ScanBefore(cell, stepX, stepY, width, y))
    ensures forall f <- ScanBefore(cell, stepX, stepY, width, y) :: f.y < y
    decreases y
  {
    if y > stepY {
      ScanBeforeOrdered(cell, stepX, stepY, width, y - stepY);
      RowBeforeOrdered(cell, stepX, y - stepY, LoopEnd(stepX, width - stepX, stepX));
      ConcatRowMajor(ScanBefore(cell, stepX, stepY, width, y - stepY), Row(cell, stepX, width, y - stepY));
    }
  }

  /** The scan emits its features in row-major order, so no grid point is emitted twice. */
  lemma FeaturesRowMajor(cell: Cell, stepX: int, stepY: int, width: int, height: int)
    requires stepX > 0 && stepY > 0 && Positioned(cell)
    ensures RowMajor(Features(cell, stepX, stepY, width, height))
  {
    ScanBeforeOrdered(cell, stepX, stepY, width, LoopEnd(stepY, height - stepY, stepY));
  }

  /**
   * A grid point's feature is emitted iff the cell accepts the point, and then
   * it is the cell's feature: no grid point is skipped and none is merged
   * with a neighbour.
   */
  lemma FeatureAtGridPoint(cell: Cell, stepX: int, stepY: int, width: int, height: int, x: int, y: int)
    requires stepX > 0 && stepY > 0 && Positioned(cell)
    requires OnGrid(stepX, width, x) && OnGrid(stepY, height, y)
    ensures HasFeatureAt(Features(cell, stepX, stepY, width, height), x, y) <==> cell(x, y).Some?
    ensures var fs := Features(cell, stepX, stepY, width, height);
            forall i :: 0 <= i < |fs| && fs[i].x == x && fs[i].y == y ==> fs[i] == cell(x, y).value
  {
    var fs := Features(cell, stepX, stepY, width, height);
    forall i | 0 <= i < |fs| && fs[i].x == x && fs[i].y == y ensures cell(x, y) == Some(fs[i]) {
      FeaturesMembers(cell, stepX, stepY, width, height, fs[i]);
    }
    if cell(x, y).Some? {
      FeaturesMembers(cell, stepX, stepY, width, height, cell(x, y).value);
      var i :| 0 <= i < |fs| && fs[i] == cell(x, y).value;
    }
  }

  // ---------------------------------------------------------------------------
  // A stricter cell keeps fewer features

  lemma {:induction false} RowBeforeShrinks(coarse: Cell, fine: Cell, stepX: int, y: int, x: int)
    requires stepX > 0 && Subsumes(coarse, fine)
    ensures |RowBefore(fine, stepX, y, x)| <= |RowBefore(coarse, stepX, y, x)|
    decreases x
  {
    if x > stepX {
      RowBeforeShrinks(coarse, fine, stepX, y, x - stepX);
    }
  }

  lemma {:induction false} ScanBeforeShrinks(coarse: Cell, fine: Cell, stepX: int, stepY: int, width: int, y: int)
    requires stepX > 0 && stepY > 0 && Subsumes(coarse, fine)
    ensures |ScanBefore(fine, stepX, stepY, width, y)| <= |ScanBefore(coarse, stepX, stepY, width, y)|
    decreases y
  {
    if y > stepY {
      ScanBeforeShrinks(coarse, fine, stepX, stepY, width, y - stepY);
      RowBeforeShrinks(coarse, fine, stepX, y - stepY, LoopEnd(stepX, width - stepX, stepX));
    }
  }

  /** A cell that accepts fewer points yields no more features. */
  lemma FeaturesShrink(coarse: Cell, fine: Cell, stepX: int, stepY: int, width: int, height: int)
    requires stepX > 0 && stepY > 0 && Subsumes(coarse, fine)
    ensures |Features(fine, stepX, stepY, width, height)| <= |Features(coarse, stepX, stepY, width, height)|
  {
    ScanBeforeShrinks(coarse, fine, stepX, stepY, width, LoopEnd(stepY, height - stepY, stepY));
  }
}

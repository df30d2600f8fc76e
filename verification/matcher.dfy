/** The search structure of `MatchTemplateOptimized` in utils.go. The score
    of the needle at offset (x, y) is a parameter `score`: `computeNCCFast`
    in the program, any function here. Six workers scan a coarse grid of
    every third column and every third row, worker `id` taking the rows
    3·id, 3·id + 18, 3·id + 36, …; their local bests are reduced to one, and
    a window of ±2 around it is scanned at full resolution. */
module Matcher {
  import opened Arith

  /** A candidate: the needle's top-left corner and its score. */
  datatype Match = Match(x: int, y: int, s: real)

  datatype Offset = Offset(x: int, y: int)

  /** `numWorkers` and `step` of the source. */
  const Workers: nat := 6
  const Stride: nat := 3

  /** Distance between two rows of one worker: numWorkers · step. */
  const RowGap: nat := Workers * Stride

  /** The score every worker and the reduction start from. */
  const Unscored: real := -1.0

  /** One comparison of the scans: the kept match scores at least both, and
      the candidate is kept only when it scores strictly more, so a tie keeps
      the current best. */
  function Better(best: Match, cand: Match): (r: Match)
    ensures r.s >= best.s && r.s >= cand.s
    ensures r == best || (r == cand && cand.s > best.s)
  {
    if cand.s > best.s then cand else best
  }

  /** A left fold of Better over `cands`, starting from `init`. The result
      scores at least `init` and every candidate, and is `init` or one of the
      candidates. */
  function Best(init: Match, cands: seq<Match>): (r: Match)
    ensures r.s >= init.s
    ensures forall c <- cands :: c.s <= r.s
    ensures r == init || r in cands
    decreases |cands|
  {
    if cands == [] then init else Best(Better(init, cands[0]), cands[1..])
  }

  /** Candidate i beats `floor` and every candidate before it. */
  predicate FirstMax(cands: seq<Match>, i: int, floor: real) {
    && 0 <= i < |cands|
    && cands[i].s > floor
    && forall j :: 0 <= j < i ==> cands[j].s < cands[i].s
  }

  /** A first maximum of the tail that also beats the head is a first
      maximum of the whole sequence, one place further on. */
  lemma FirstMaxTail(cands: seq<Match>, i: int, floor: real, lower: real)
    requires cands != [] && FirstMax(cands[1..], i, floor)
    requires cands[0].s < cands[i + 1].s && lower <= floor
    ensures FirstMax(cands, i + 1, lower)
  {
    forall j | 0 < j < i + 1
      ensures cands[j].s < cands[i + 1].s
    {
      assert cands[j] == cands[1..][j - 1];
    }
  }

  /** The scan keeps the first maximum: when some candidate beats `init`,
      the result is the earliest candidate with the highest score; when none
      does, it is `init` itself. */
  lemma {:induction false} BestIsFirstMaximum(init: Match, cands: seq<Match>)
    ensures (forall c <- cands :: c.s <= init.s) ==> Best(init, cands) == init
    ensures (exists c <- cands :: c.s > init.s) ==>
      exists i :: FirstMax(cands, i, init.s) && cands[i] == Best(init, cands)
    decreases |cands|
  {
    if cands != [] {
      var next := Better(init, cands[0]);
      var rest := cands[1..];
      BestIsFirstMaximum(next, rest);
      var r := Best(init, cands);
      assert r == Best(next, rest);
      if exists c <- rest :: c.s > next.s {
        var i :| FirstMax(rest, i, next.s) && rest[i] == r;
        FirstMaxTail(cands, i, next.s, init.s);
      } else if cands[0].s > init.s {
        assert FirstMax(cands, 0, init.s);
      } else {
        assert forall c <- cands :: c.s <= init.s by {
          forall c <- cands ensures c.s <= init.s {
            if c != cands[0] {
              assert c in rest;
            }
          }
        }
      }
    }
  }

  /** The best score does not depend on the order the candidates arrive in:
      any reordering of them yields the same score, though among equal
      scores the offset kept may differ. */
  lemma BestScoreOrderFree(init: Match, a: seq<Match>, b: seq<Match>)
    requires multiset(a) == multiset(b)
    ensures Best(init, a).s == Best(init, b).s
  {
    var ra, rb := Best(init, a), Best(init, b);
    if ra != init {
      assert ra in multiset(b);
    }
    if rb != init {
      assert rb in multiset(a);
    }
  }

  /** The values lo, lo + step, lo + 2·step, … below hi, in that order: one
      `for` loop of the source. */
  function Range(lo: int, hi: int, step: nat): (r: seq<int>)
    requires step > 0
    ensures forall i :: 0 <= i < |r| ==> r[i] == lo + i * step
    ensures forall v <- r :: lo <= v < hi
    decreases hi - lo
  {
    if lo >= hi then []
    else
      var rest := Range(lo + step, hi, step);
      assert forall i :: 1 <= i < |rest| + 1 ==> lo + step + (i - 1) * step == lo + i * step;
      [lo] + rest
  }

  /** A value is visited by the loop exactly when it is in [lo, hi) and a
      whole number of steps from lo. */
  lemma {:induction false} RangeMembers(lo: int, hi: int, step: nat, v: int)
    requires step > 0
    ensures v in Range(lo, hi, step) <==> lo <= v < hi && (v - lo) % step == 0
    decreases hi - lo
  {
    if lo < hi {
      RangeMembers(lo + step, hi, step, v);
      assert Range(lo, hi, step) == [lo] + Range(lo + step, hi, step);
      if v < lo + step {
        if lo <= v {
          ModUnique(v - lo, step, 0, v - lo);
        }
      } else {
        ShiftMod(v - lo, step);
      }
    }
  }

  /** Division with remainder is unique. */
  lemma ModUnique(a: int, step: int, q: int, m: int)
    requires step > 0 && 0 <= m < step && a == q * step + m
    ensures a % step == m
  {
    var q0, m0 := a / step, a % step;
    assert q * step - q0 * step == (q - q0) * step;
    if q > q0 {
      MulLe(step, 1, q - q0);
    } else if q < q0 {
      MulLe(step, 1, q0 - q);
    }
  }

  lemma ShiftMod(a: int, step: int)
    requires step > 0 && a >= step
    ensures (a - step) % step == a % step
  {
    var q, m := (a - step) / step, (a - step) % step;
    assert (q + 1) * step == q * step + step;
    ModUnique(a, step, q + 1, m);
  }

  /** The offsets of two nested loops, row by row: y over `ys`, x over `xs`. */
  function Grid(ys: seq<int>, xs: seq<int>): (r: seq<Offset>)
    ensures forall x, y :: Offset(x, y) in r <==> y in ys && x in xs
    ensures forall o <- r :: o.y in ys && o.x in xs
    ensures |r| == |ys| * |xs| && RowMajor(r, ys, xs)
  {
    if ys == [] then []
    else
      var row := seq(|xs|, i requires 0 <= i < |xs| => Offset(xs[i], ys[0]));
      assert forall x :: Offset(x, ys[0]) in row <==> x in xs by {
        forall x | x in xs
          ensures Offset(x, ys[0]) in row
        {
          var i :| 0 <= i < |xs| && xs[i] == x;
          assert row[i] == Offset(x, ys[0]);
        }
      }
      var rest := Grid(ys[1..], xs);
      GridRows(ys, xs, row, rest);
      row + rest
  }

  /** Offset (xs[j], ys[i]) sits at position i·|xs| + j: row by row, and
      within a row in the order of xs. */
  predicate RowMajor(r: seq<Offset>, ys: seq<int>, xs: seq<int>) {
    forall i, j :: 0 <= i < |ys| && 0 <= j < |xs| ==>
      0 <= i * |xs| + j < |r| && r[i * |xs| + j] == Offset(xs[j], ys[i])
  }

  /** Row ys[0] followed by the rows of ys[1..] keeps row-major order. */
  lemma GridRows(ys: seq<int>, xs: seq<int>, row: seq<Offset>, rest: seq<Offset>)
    requires |ys| > 0 && |row| == |xs| && |rest| == (|ys| - 1) * |xs|
    requires forall j :: 0 <= j < |xs| ==> row[j] == Offset(xs[j], ys[0])
    requires RowMajor(rest, ys[1..], xs)
    ensures |row + rest| == |ys| * |xs|
    ensures RowMajor(row + rest, ys, xs)
  {
    assert |ys| * |xs| == |xs| + (|ys| - 1) * |xs|;
    forall i, j | 0 <= i < |ys| && 0 <= j < |xs|
      ensures 0 <= i * |xs| + j < |row + rest| && (row + rest)[i * |xs| + j] == Offset(xs[j], ys[i])
    {
      GridRowsAt(ys, xs, row, rest, i, j);
    }
  }

  /** One cell of GridRows. */
  lemma GridRowsAt(ys: seq<int>, xs: seq<int>, row: seq<Offset>, rest: seq<Offset>, i: int, j: int)
    requires |ys| > 0 && |row| == |xs| && |rest| == (|ys| - 1) * |xs|
    requires forall j :: 0 <= j < |xs| ==> row[j] == Offset(xs[j], ys[0])
    requires RowMajor(rest, ys[1..], xs)
    requires 0 <= i < |ys| && 0 <= j < |xs|
    ensures 0 <= i * |xs| + j < |row + rest| && (row + rest)[i * |xs| + j] == Offset(xs[j], ys[i])
  {
    if i == 0 {
      assert i * |xs| + j == j;
    } else {
      var k := GridCell(|xs|, |ys|, i, j);
      assert rest[k] == Offset(xs[j], ys[1..][i - 1]);
    }
  }

  /** Position i·n + j, for a row i > 0, is position (i − 1)·n + j of the
      rows after the first. */
  lemma GridCell(n: int, h: int, i: int, j: int) returns (k: int)
    requires 0 < i < h && 0 <= j < n
    ensures k == (i - 1) * n + j && i * n + j == n + k
    ensures 0 <= k < (h - 1) * n
  {
    k := (i - 1) * n + j;
    MulLe(n, i - 1, h - 2);
    assert (h - 1) * n == (h - 2) * n + n;
  }

  /** The candidates of a scan over `offsets`, each with its score: every
      offset appears with its score, and nothing else does. */
  function Scan(offsets: seq<Offset>, score: (int, int) -> real): (r: seq<Match>)
    ensures forall o <- offsets :: Match(o.x, o.y, score(o.x, o.y)) in r
    ensures forall m <- r :: Offset(m.x, m.y) in offsets && m.s == score(m.x, m.y)
    ensures |r| == |offsets|
    ensures forall i :: 0 <= i < |offsets| ==> r[i] == Match(offsets[i].x, offsets[i].y, score(offsets[i].x, offsets[i].y))
  {
    var r := seq(|offsets|, i requires 0 <= i < |offsets| => Match(offsets[i].x, offsets[i].y, score(offsets[i].x, offsets[i].y)));
    assert forall i :: 0 <= i < |offsets| ==> r[i] == Match(offsets[i].x, offsets[i].y, score(offsets[i].x, offsets[i].y));
    r
  }

  /** Worker `id` scans (x, y): a column that is a multiple of 3 and a row
      that is 3·id modulo 18, both in range. */
  predicate WorkerScans(id: int, x: int, y: int, maxX: int, maxY: int) {
    InRange(x, y, maxX, maxY) && x % Stride == 0 && y % RowGap == Stride * id
  }

  /** The offsets worker `id` scores: rows from 3·id up to maxY in steps of
      18, and in each row the columns 0, 3, 6, … up to maxX. These are
      exactly the offsets WorkerScans names. */
  function WorkerOffsets(id: int, maxX: int, maxY: int): (r: seq<Offset>)
    requires 0 <= id < Workers
    ensures forall x, y :: Offset(x, y) in r <==> WorkerScans(id, x, y, maxX, maxY)
    ensures RowMajor(r, Range(Stride * id, maxY + 1, RowGap), Range(0, maxX + 1, Stride))
  {
    var r := Grid(Range(Stride * id, maxY + 1, RowGap), Range(0, maxX + 1, Stride));
    assert forall x, y :: Offset(x, y) in r <==> WorkerScans(id, x, y, maxX, maxY) by {
      forall x, y
        ensures Offset(x, y) in r <==> WorkerScans(id, x, y, maxX, maxY)
      {
        WorkerLoops(id, x, y, maxX, maxY);
      }
    }
    r
  }

  /** The two loops of worker `id` visit (x, y) exactly when WorkerScans
      holds. */
  lemma WorkerLoops(id: int, x: int, y: int, maxX: int, maxY: int)
    requires 0 <= id < Workers
    ensures y in Range(Stride * id, maxY + 1, RowGap) && x in Range(0, maxX + 1, Stride)
      <==> WorkerScans(id, x, y, maxX, maxY)
  {
    RangeMembers(Stride * id, maxY + 1, RowGap, y);
    RangeMembers(0, maxX + 1, Stride, x);
    if y >= 0 {
      RowResidue(id, y);
    }
  }

  /** The local best of worker `id`, from (0, 0) with score -1: either that
      seed or one of the worker's own offsets carrying its score, and at
      least the score of every offset the worker scans. */
  function Worker(id: int, maxX: int, maxY: int, score: (int, int) -> real): (w: Match)
    requires 0 <= id < Workers
    ensures w == Match(0, 0, Unscored) || (WorkerScans(id, w.x, w.y, maxX, maxY) && w.s == score(w.x, w.y))
    ensures forall x, y :: WorkerScans(id, x, y, maxX, maxY) ==> score(x, y) <= w.s
  {
    var offs := WorkerOffsets(id, maxX, maxY);
    var cands := Scan(offs, score);
    assert forall x, y :: WorkerScans(id, x, y, maxX, maxY) ==> Match(x, y, score(x, y)) in cands;
    Best(Match(0, 0, Unscored), cands)
  }

  /** Among equal scores a worker keeps the earliest offset of its
      row-major scan: when some offset scores above -1 the local best is the
      first candidate with the highest score, and otherwise it is the seed. */
  lemma WorkerFirstMaximum(id: int, maxX: int, maxY: int, score: (int, int) -> real)
    requires 0 <= id < Workers
    ensures var cands := Scan(WorkerOffsets(id, maxX, maxY), score);
      && ((forall c <- cands :: c.s <= Unscored) ==> Worker(id, maxX, maxY, score) == Match(0, 0, Unscored))
      && ((exists c <- cands :: c.s > Unscored) ==>
            exists i :: FirstMax(cands, i, Unscored) && cands[i] == Worker(id, maxX, maxY, score))
  {
    BestIsFirstMaximum(Match(0, 0, Unscored), Scan(WorkerOffsets(id, maxX, maxY), score));
  }

  /** The six local bests, in worker order. */
  function Locals(maxX: int, maxY: int, score: (int, int) -> real): seq<Match> {
    seq(Workers, id requires 0 <= id < Workers => Worker(id, maxX, maxY, score))
  }

  /** The reduction of the six local bests, in worker order. It is (0, 0)
      with score -1 or an offset of the coarse grid with its own score, so it
      is in range whenever the range is not empty, and it scores at least
      every local best and every offset of the coarse grid. */
  function Coarse(maxX: int, maxY: int, score: (int, int) -> real): (bc: Match)
    ensures bc == Match(0, 0, Unscored) || (OnCoarseGrid(bc.x, bc.y, maxX, maxY) && bc.s == score(bc.x, bc.y))
    ensures maxX >= 0 && maxY >= 0 ==> InRange(bc.x, bc.y, maxX, maxY)
    ensures forall id :: 0 <= id < Workers ==> Worker(id, maxX, maxY, score).s <= bc.s
    ensures forall x, y :: OnCoarseGrid(x, y, maxX, maxY) ==> score(x, y) <= bc.s
  {
    ReductionOrigin(maxX, maxY, score);
    ReductionAboveWorkers(maxX, maxY, score);
    ReductionCoversGrid(maxX, maxY, score);
    Best(Match(0, 0, Unscored), Locals(maxX, maxY, score))
  }

  /** The reduced best is the seed or a coarse-grid offset with its score. */
  lemma ReductionOrigin(maxX: int, maxY: int, score: (int, int) -> real)
    ensures var bc := Best(Match(0, 0, Unscored), Locals(maxX, maxY, score));
      bc == Match(0, 0, Unscored) || (OnCoarseGrid(bc.x, bc.y, maxX, maxY) && bc.s == score(bc.x, bc.y))
  {
    var locals := Locals(maxX, maxY, score);
    var bc := Best(Match(0, 0, Unscored), locals);
    if bc != Match(0, 0, Unscored) {
      var id := IndexOf(locals, bc);
      LocalOnGrid(id, maxX, maxY, score);
    }
  }

  /** The position of a match that occurs in a sequence. */
  lemma IndexOf(ms: seq<Match>, m: Match) returns (i: int)
    requires m in ms
    ensures 0 <= i < |ms| && ms[i] == m
  {
    i :| 0 <= i < |ms| && ms[i] == m;
  }

  /** A local best other than the seed lies on the coarse grid. */
  lemma LocalOnGrid(id: int, maxX: int, maxY: int, score: (int, int) -> real)
    requires 0 <= id < Workers
    ensures var w := Worker(id, maxX, maxY, score);
      w == Match(0, 0, Unscored) || (OnCoarseGrid(w.x, w.y, maxX, maxY) && w.s == score(w.x, w.y))
  {
    var w := Worker(id, maxX, maxY, score);
    if w != Match(0, 0, Unscored) {
      WorkerRowsOnGrid(id, w.y);
    }
  }

  /** The reduced best scores at least every local best. */
  lemma ReductionAboveWorkers(maxX: int, maxY: int, score: (int, int) -> real)
    ensures forall id :: 0 <= id < Workers ==>
      Worker(id, maxX, maxY, score).s <= Best(Match(0, 0, Unscored), Locals(maxX, maxY, score)).s
  {
    var locals := Locals(maxX, maxY, score);
    forall id | 0 <= id < Workers
      ensures Worker(id, maxX, maxY, score).s <= Best(Match(0, 0, Unscored), locals).s
    {
      assert locals[id] in locals;
    }
  }

  /** The reduced best scores at least every offset of the coarse grid: the
      worker (y mod 18) / 3 scans it. */
  lemma ReductionCoversGrid(maxX: int, maxY: int, score: (int, int) -> real)
    ensures forall x, y :: OnCoarseGrid(x, y, maxX, maxY) ==>
      score(x, y) <= Best(Match(0, 0, Unscored), Locals(maxX, maxY, score)).s
  {
    var locals := Locals(maxX, maxY, score);
    forall x, y | OnCoarseGrid(x, y, maxX, maxY)
      ensures score(x, y) <= Best(Match(0, 0, Unscored), locals).s
    {
      GridRowWorker(y);
      var id := (y % RowGap) / Stride;
      assert WorkerScans(id, x, y, maxX, maxY);
      assert locals[id] in locals;
    }
  }

  /** The rows of every worker are rows of the coarse grid. */
  lemma WorkerRowsOnGrid(id: int, y: int)
    requires 0 <= id < Workers && y % RowGap == Stride * id
    ensures y % Stride == 0
  {
    var q := y / RowGap;
    assert y == (6 * q + id) * Stride;
    ModUnique(y, Stride, 6 * q + id, 0);
  }

  lemma RowResidue(id: int, y: int)
    requires 0 <= id < Workers && y >= 0
    ensures Stride * id <= y && (y - Stride * id) % RowGap == 0 <==> y % RowGap == Stride * id
  {
    if y % RowGap == Stride * id {
      assert y == (y / RowGap) * RowGap + Stride * id;
      assert y - Stride * id == (y / RowGap) * RowGap;
    }
    if Stride * id <= y && (y - Stride * id) % RowGap == 0 {
      var q := (y - Stride * id) / RowGap;
      assert y == q * RowGap + Stride * id;
    }
  }

  /** The workers' row sets are pairwise disjoint. */
  lemma WorkersDisjoint(id1: int, id2: int, x: int, y: int, maxX: int, maxY: int)
    requires 0 <= id1 < Workers && 0 <= id2 < Workers && id1 != id2
    ensures !(Offset(x, y) in WorkerOffsets(id1, maxX, maxY) && Offset(x, y) in WorkerOffsets(id2, maxX, maxY))
  {
  }

  /** Together the workers scan exactly the coarse grid: an offset of the
      grid is scanned by worker (y mod 18) / 3, and every scanned offset is
      on the grid. */
  lemma WorkersCoverGrid(x: int, y: int, maxX: int, maxY: int)
    ensures OnCoarseGrid(x, y, maxX, maxY) ==> Offset(x, y) in WorkerOffsets((y % RowGap) / Stride, maxX, maxY)
    ensures forall id :: 0 <= id < Workers && Offset(x, y) in WorkerOffsets(id, maxX, maxY) ==> OnCoarseGrid(x, y, maxX, maxY)
  {
    if OnCoarseGrid(x, y, maxX, maxY) {
      GridRowWorker(y);
    }
    forall id | 0 <= id < Workers && Offset(x, y) in WorkerOffsets(id, maxX, maxY)
      ensures OnCoarseGrid(x, y, maxX, maxY)
    {
      WorkerRowsOnGrid(id, y);
    }
  }

  /** A grid row's residue modulo 18 is 3 times a worker id. */
  lemma GridRowWorker(y: int)
    requires y % Stride == 0
    ensures 0 <= (y % RowGap) / Stride < Workers
    ensures y % RowGap == Stride * ((y % RowGap) / Stride)
  {
    var q, m := y / RowGap, y % RowGap;
    assert y == Stride * (y / Stride);
    assert m == Stride * (y / Stride - Workers * q);
    ModUnique(m, Stride, y / Stride - Workers * q, 0);
  }

  /** The fine-tuning window: rows and columns within step − 1 of the coarse
      best, clamped to [0, maxY] and [0, maxX]. It holds exactly the
      in-range offsets within ±2 of the coarse best. */
  function RefineOffsets(bc: Match, maxX: int, maxY: int): (r: seq<Offset>)
    ensures forall x, y :: Offset(x, y) in r <==> InRange(x, y, maxX, maxY) && Near(x, y, bc)
    ensures RowMajor(r, Range(Max(0, bc.y - Stride + 1), Min(maxY + 1, bc.y + Stride), 1),
                        Range(Max(0, bc.x - Stride + 1), Min(maxX + 1, bc.x + Stride), 1))
  {
    var ys := Range(Max(0, bc.y - Stride + 1), Min(maxY + 1, bc.y + Stride), 1);
    var xs := Range(Max(0, bc.x - Stride + 1), Min(maxX + 1, bc.x + Stride), 1);
    assert forall x, y :: y in ys && x in xs <==> InRange(x, y, maxX, maxY) && Near(x, y, bc) by {
      forall x, y
        ensures y in ys && x in xs <==> InRange(x, y, maxX, maxY) && Near(x, y, bc)
      {
        RangeMembers(Max(0, bc.y - Stride + 1), Min(maxY + 1, bc.y + Stride), 1, y);
        RangeMembers(Max(0, bc.x - Stride + 1), Min(maxX + 1, bc.x + Stride), 1, x);
      }
    }
    Grid(ys, xs)
  }

  /** The refinement: a scan of the window seeded with the coarse best. The
      result scores at least the coarse best and every offset of the window;
      it is the coarse best or a window offset carrying its own, strictly
      higher score. */
  function Refine(bc: Match, maxX: int, maxY: int, score: (int, int) -> real): (r: Match)
    ensures r.s >= bc.s
    ensures forall x, y :: InRange(x, y, maxX, maxY) && Near(x, y, bc) ==> score(x, y) <= r.s
    ensures r == bc || (InRange(r.x, r.y, maxX, maxY) && Near(r.x, r.y, bc) && r.s == score(r.x, r.y) && r.s > bc.s)
  {
    var offs := RefineOffsets(bc, maxX, maxY);
    var cands := Scan(offs, score);
    assert forall x, y :: InRange(x, y, maxX, maxY) && Near(x, y, bc) ==> Match(x, y, score(x, y)) in cands;
    BestIsFirstMaximum(bc, cands);
    Best(bc, cands)
  }

  /** Among equal scores the refinement keeps the earliest offset of its
      row-major window scan, and it keeps the coarse best unless some window
      offset scores strictly more. */
  lemma RefineFirstMaximum(bc: Match, maxX: int, maxY: int, score: (int, int) -> real)
    ensures var cands := Scan(RefineOffsets(bc, maxX, maxY), score);
      && ((forall c <- cands :: c.s <= bc.s) ==> Refine(bc, maxX, maxY, score) == bc)
      && ((exists c <- cands :: c.s > bc.s) ==>
            exists i :: FirstMax(cands, i, bc.s) && cands[i] == Refine(bc, maxX, maxY, score))
  {
    BestIsFirstMaximum(bc, Scan(RefineOffsets(bc, maxX, maxY), score));
  }

  /** The offset keeps the needle inside the haystack. */
  predicate InRange(x: int, y: int, maxX: int, maxY: int) {
    0 <= x <= maxX && 0 <= y <= maxY
  }

  /** An offset of the coarse grid: every third column and every third row. */
  predicate OnCoarseGrid(x: int, y: int, maxX: int, maxY: int) {
    InRange(x, y, maxX, maxY) && x % Stride == 0 && y % Stride == 0
  }

  /** (x, y) lies within step − 1 = 2 of the coarse best in both directions. */
  predicate Near(x: int, y: int, bc: Match) {
    bc.x - 2 <= x <= bc.x + 2 && bc.y - 2 <= y <= bc.y + 2
  }

  /** `MatchTemplateOptimized` for a haystack of hW × hH and a needle of
      nW × nH. A needle wider or taller than the haystack gives (0, 0, 0.0).
      Otherwise the result lies in the valid offset range, scores at least
      as high as every offset of the coarse grid and of the refinement
      window, and is either the coarse best itself or a strictly better
      offset of that window. */
  function MatchTemplate(hW: int, hH: int, nW: int, nH: int, score: (int, int) -> real): (r: Match)
    ensures nW > hW || nH > hH ==> r == Match(0, 0, 0.0)
    ensures nW <= hW && nH <= hH ==> InRange(r.x, r.y, hW - nW, hH - nH)
    ensures nW <= hW && nH <= hH ==>
      forall x, y :: OnCoarseGrid(x, y, hW - nW, hH - nH) ==> score(x, y) <= r.s
    ensures nW <= hW && nH <= hH ==>
      var bc := Coarse(hW - nW, hH - nH, score);
      && r.s >= bc.s
      && (forall x, y :: InRange(x, y, hW - nW, hH - nH) && Near(x, y, bc) ==> score(x, y) <= r.s)
      && (r == bc || (Near(r.x, r.y, bc) && r.s == score(r.x, r.y) && r.s > bc.s))
  {
    if nW > hW || nH > hH then Match(0, 0, 0.0)
    else Refine(Coarse(hW - nW, hH - nH, score), hW - nW, hH - nH, score)
  }
}

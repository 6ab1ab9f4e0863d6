/**
 * mm_parallel of av/sample_window.go: the rows of a pass on several threads. A schedule names, step by step,
 * the thread that stores its next sample. A thread that could not be started and runs in line is one more
 * schedule, in which all its steps come before the next thread starts.
 */
module Threads {
  import opened Common
  import opened Kernels
  import opened Coverage
  import opened Spans
  import opened Direct
  import opened Separable

  /** What a pass stores in each sample of a grid of rows and columns; nothing where it leaves the sample alone. */
  datatype Pass<!T> = Pass(rows: nat, cols: nat, value: (nat, nat) -> Option<T>)

  /** The sample a thread handles next. */
  datatype Cursor = Cursor(row: nat, col: nat)

  datatype Machine<T> = Machine(cursors: seq<Cursor>, grid: seq<seq<T>>, stores: seq<seq<nat>>)

  ghost predicate Shaped<T>(pass: Pass<T>, m: Machine<T>) {
    && |m.cursors| > 0 && pass.cols > 0 && |m.grid| == |m.stores| == pass.rows
    && (forall y :: 0 <= y < pass.rows ==> |m.grid[y]| == pass.cols && |m.stores[y]| == pass.cols)
    && forall t :: 0 <= t < |m.cursors| ==> m.cursors[t].col < pass.cols
  }

  /** Thread t of n starts at the first sample of row t. */
  ghost predicate Started<T>(pass: Pass<T>, m: Machine<T>) {
    && Shaped(pass, m)
    && (forall t :: 0 <= t < |m.cursors| ==> m.cursors[t] == Cursor(t, 0))
    && forall y, x :: 0 <= y < pass.rows && 0 <= x < pass.cols ==> m.stores[y][x] == 0
  }

  /** The loops of a thread: along a row, then n rows down. */
  function Next(c: Cursor, cols: nat, n: nat): Cursor {
    if c.col + 1 < cols then Cursor(c.row, c.col + 1) else Cursor(c.row + n, 0)
  }

  function Put<T>(grid: seq<seq<T>>, y: nat, x: nat, v: T): (g: seq<seq<T>>)
    requires y < |grid| && x < |grid[y]|
    ensures |g| == |grid| && forall r :: 0 <= r < |g| ==> |g[r]| == |grid[r]|
    ensures forall r, c :: 0 <= r < |g| && 0 <= c < |g[r]| ==> g[r][c] == if r == y && c == x then v else grid[r][c]
  {
    grid[y := grid[y][x := v]]
  }

  /** One step of thread t; a thread that is finished does nothing. */
  ghost function Stepped<T>(pass: Pass<T>, m: Machine<T>, t: nat): (r: Machine<T>)
    requires Shaped(pass, m)
    ensures Shaped(pass, r) && |r.cursors| == |m.cursors|
  {
    if t >= |m.cursors| || m.cursors[t].row >= pass.rows then m
    else
      var c := m.cursors[t];
      var cursors := m.cursors[t := Next(c, pass.cols, |m.cursors|)];
      match pass.value(c.row, c.col)
      case None => Machine(cursors, m.grid, m.stores)
      case Some(v) => Machine(cursors, Put(m.grid, c.row, c.col, v),
                              Put(m.stores, c.row, c.col, m.stores[c.row][c.col] + 1))
  }

  /** The machine after the first k steps of a schedule. */
  ghost function After<T>(pass: Pass<T>, m: Machine<T>, schedule: seq<nat>, k: nat): (r: Machine<T>)
    requires Shaped(pass, m) && k <= |schedule|
    ensures Shaped(pass, r) && |r.cursors| == |m.cursors|
  {
    if k == 0 then m else Stepped(pass, After(pass, m, schedule, k - 1), schedule[k - 1])
  }

  ghost predicate Finished<T>(pass: Pass<T>, m: Machine<T>) {
    forall t :: 0 <= t < |m.cursors| ==> m.cursors[t].row >= pass.rows
  }

  // ----- What holds at every moment

  /** The thread that owns row y has gone past sample (y, x). */
  ghost predicate Passed(cursors: seq<Cursor>, y: nat, x: nat)
    requires |cursors| > 0
  {
    var c := cursors[y % |cursors|];
    c.row > y || (c.row == y && c.col > x)
  }

  /**
   * Each sample is as the pass leaves it once its thread has gone past it, stored once or not at all; before, it is
   * untouched.
   */
  ghost predicate SampleOk<T>(pass: Pass<T>, start: Machine<T>, m: Machine<T>, y: nat, x: nat)
    requires Shaped(pass, start) && Shaped(pass, m) && y < pass.rows && x < pass.cols
  {
    if Passed(m.cursors, y, x) && pass.value(y, x).Some? then
      m.grid[y][x] == pass.value(y, x).value && m.stores[y][x] == 1
    else m.grid[y][x] == start.grid[y][x] && m.stores[y][x] == 0
  }

  ghost predicate Moment<T>(pass: Pass<T>, start: Machine<T>, m: Machine<T>) {
    && Shaped(pass, start) && Shaped(pass, m) && |m.cursors| == |start.cursors|
    && (forall t :: 0 <= t < |m.cursors| ==> Owns(t, |m.cursors|, m.cursors[t].row))
    && forall y, x :: 0 <= y < pass.rows && 0 <= x < pass.cols ==> SampleOk(pass, start, m, y, x)
  }

  lemma StartsOk<T>(pass: Pass<T>, m: Machine<T>)
    requires Started(pass, m)
    ensures Moment(pass, m, m)
  {
    forall t | 0 <= t < |m.cursors|
      ensures Owns(t, |m.cursors|, m.cursors[t].row)
    {
      FirstOwned(t, |m.cursors|);
    }
    forall y, x | 0 <= y < pass.rows && 0 <= x < pass.cols
      ensures SampleOk(pass, m, m, y, x)
    {
      RemainderBelow(y, |m.cursors|);
    }
  }

  lemma RemainderBelow(y: nat, n: nat)
    requires n > 0
    ensures y % n <= y
  {
    var q := y / n;
    assert y == n * q + y % n;
    assert q >= 0 ==> n * q >= 0;
  }

  /** Which samples a thread has gone past changes in one place only: the sample it has just handled. */
  lemma PassedStep(cursors: seq<Cursor>, t: nat, cols: nat, y: nat, x: nat)
    requires t < |cursors| && cursors[t].col < cols && Owns(t, |cursors|, cursors[t].row) && x < cols
    ensures var c := cursors[t];
            Passed(cursors[t := Next(c, cols, |cursors|)], y, x)
            <==> Passed(cursors, y, x) || (y == c.row && x == c.col)
    ensures y == cursors[t].row && x == cursors[t].col ==> !Passed(cursors, y, x)
  {
    var n, c := |cursors|, cursors[t];
    if y % n == t {
      NextOwned(t, n, c.row);
      assert Owns(t, n, y);
    }
  }

  lemma StepOk<T>(pass: Pass<T>, start: Machine<T>, m: Machine<T>, t: nat)
    requires Moment(pass, start, m)
    ensures Moment(pass, start, Stepped(pass, m, t))
  {
    hide Passed, Owns, Put, Next;
    var r := Stepped(pass, m, t);
    if t < |m.cursors| && m.cursors[t].row < pass.rows {
      NextRowOwned(pass, m, t);
      forall y, x | 0 <= y < pass.rows && 0 <= x < pass.cols
        ensures SampleOk(pass, start, r, y, x)
      {
        assert SampleOk(pass, start, m, y, x);
        PassedStep(m.cursors, t, pass.cols, y, x);
      }
    }
  }

  lemma NextRowOwned<T>(pass: Pass<T>, m: Machine<T>, t: nat)
    requires Shaped(pass, m) && t < |m.cursors| && Owns(t, |m.cursors|, m.cursors[t].row)
    ensures Owns(t, |m.cursors|, Next(m.cursors[t], pass.cols, |m.cursors|).row)
  {
    NextOwned(t, |m.cursors|, m.cursors[t].row);
  }

  lemma {:induction false} AfterOk<T>(pass: Pass<T>, start: Machine<T>, schedule: seq<nat>, k: nat)
    requires Started(pass, start) && k <= |schedule|
    ensures Moment(pass, start, After(pass, start, schedule, k))
  {
    hide Moment, Stepped;
    if k == 0 {
      StartsOk(pass, start);
    } else {
      AfterOk(pass, start, schedule, k - 1);
      StepOk(pass, start, After(pass, start, schedule, k - 1), schedule[k - 1]);
    }
  }

  // ----- The result does not depend on threads

  /** The sample is what the pass says, stored exactly once where the pass stores and never elsewhere. */
  ghost predicate Settled<T>(pass: Pass<T>, start: Machine<T>, m: Machine<T>, y: nat, x: nat)
    requires Shaped(pass, start) && Shaped(pass, m) && y < pass.rows && x < pass.cols
  {
    var v := pass.value(y, x);
    && m.grid[y][x] == (if v.Some? then v.value else start.grid[y][x])
    && m.stores[y][x] == (if v.Some? then 1 else 0)
  }

  /** Whatever the number of threads and whatever the interleaving: when all are finished, every sample is settled. */
  lemma AnySchedule<T>(pass: Pass<T>, start: Machine<T>, schedule: seq<nat>, y: nat, x: nat)
    requires Shaped(pass, start) && Started(pass, start) && Finished(pass, After(pass, start, schedule, |schedule|))
    requires y < pass.rows && x < pass.cols
    ensures Settled(pass, start, After(pass, start, schedule, |schedule|), y, x)
  {
    hide After, Finished, Moment, Settled, Shaped, Started;
    AfterOk(pass, start, schedule, |schedule|);
    LastMoment(pass, start, After(pass, start, schedule, |schedule|), y, x);
  }

  lemma LastMoment<T>(pass: Pass<T>, start: Machine<T>, m: Machine<T>, y: nat, x: nat)
    requires Moment(pass, start, m) && Finished(pass, m) && y < pass.rows && x < pass.cols
    ensures Settled(pass, start, m, y, x)
  {
    assert SampleOk(pass, start, m, y, x) && Passed(m.cursors, y, x);
  }

  /** The second pass as a job for threads: the direct sum where a sample is kept. */
  ghost function SecondPass(p: Plan): Pass<int>
    requires p.Valid() && p.Width() >= 0 && p.Height() >= 0
  {
    Pass(p.Height(), p.Width(),
         (j, i) => if p.Written(i, j) then Some(DirectValue(p.kernel, p.ax, p.ay, i, j, p.pic)) else None)
  }

  lemma SecondPassIs(p: Plan, j: nat, i: nat)
    requires p.Valid() && p.Width() >= 0 && p.Height() >= 0
    ensures SecondPass(p).rows == p.Height() && SecondPass(p).cols == p.Width()
    ensures SecondPass(p).value(j, i) == if p.Written(i,
                                                      j) then Some(DirectValue(p.kernel, p.ax, p.ay, i, j, p.pic))
                                                        else None
  {
    hide DirectValue, Plan.Written, PlaneSize;
  }

  lemma WrittenWhenCovered(p: Plan, j: nat, i: nat)
    requires p.Valid() && p.FromWindow() && CoversAll(p.win) && p.win.srcH as real <= FAR && j < p.Height()
    requires i < p.Width()
    ensures p.Written(i, j)
  {
    hide KeepsX, KeepsY, Far, CoversAll, AxisOf, PlaneSize;
    CoveredIsKept(p.win, p.subX, p.subY, i, j);
    CoveredIsNear(p.win, p.subY, p.ay.support, j);
  }

  /** The machine holds v in sample (y, x) and stored there once. */
  ghost predicate HoldsOnce<T>(m: Machine<T>, y: nat, x: nat, v: T) {
    && y < |m.grid| && x < |m.grid[y]| && m.grid[y][x] == v
    && y < |m.stores| && x < |m.stores[y]| && m.stores[y][x] == 1
  }

  lemma SettledSome<T>(pass: Pass<T>, start: Machine<T>, m: Machine<T>, y: nat, x: nat, v: T)
    requires Shaped(pass, start) && Shaped(pass, m) && y < pass.rows && x < pass.cols
    requires Settled(pass, start, m, y, x) && pass.value(y, x) == Some(v)
    ensures HoldsOnce(m, y, x, v)
  {
  }

  /**
   * When the whole window is covered, each sample of the output is stored exactly once, on any threads, up to 10^9
   * source rows.
   */
  lemma CoveredStoredOnce(p: Plan, pass: Pass<int>, start: Machine<int>, schedule: seq<nat>, j: nat, i: nat)
    requires p.Valid() && p.FromWindow() && CoversAll(p.win) && p.win.srcH as real <= FAR && pass == SecondPass(p)
    requires Shaped(pass, start) && Started(pass, start) && Finished(pass, After(pass, start, schedule, |schedule|))
    requires j < p.Height() && i < p.Width()
    ensures HoldsOnce(After(pass, start, schedule, |schedule|), j, i, DirectValue(p.kernel, p.ax, p.ay, i, j, p.pic))
  {
    hide CoversAll, SecondPass, Shaped, Started, After, Finished, DirectValue, PlaneSize, Plan.Written, Settled,
         HoldsOnce,
         Picture.Valid, Window.Valid, Axis.Valid, Axis.Radius, Vanishes, Far, AxisOf;
    SecondPassIs(p, j, i);
    WrittenWhenCovered(p, j, i);
    AnySchedule(pass, start, schedule, j, i);
    SettledSome(pass, start, After(pass, start, schedule, |schedule|), j, i,
                DirectValue(p.kernel, p.ax, p.ay, i, j, p.pic));
  }

  // ----- Both passes

  /** The first pass as a job for threads: the source rows row0..row1, filtered across. */
  ghost function FirstPass(p: Plan, row0: int, row1: int): Pass<real>
    requires p.Valid() && p.Width() >= 0 && row1 - row0 + 1 >= 0
  {
    Pass(row1 - row0 + 1, p.Width(), (m, i) => Some(HorizValue(p.kernel, p.ax, i, p.pic, row0 + m)))
  }

  lemma FirstPassIs(p: Plan, row0: int, row1: int, m: nat, i: nat)
    requires p.Valid() && p.Width() >= 0 && row1 - row0 + 1 >= 0
    ensures FirstPass(p, row0, row1).rows == row1 - row0 + 1 && FirstPass(p, row0, row1).cols == p.Width()
    ensures FirstPass(p, row0, row1).value(m, i) == Some(HorizValue(p.kernel, p.ax, i, p.pic, row0 + m))
  {
    hide HorizValue, PlaneSize;
  }

  /** The buffer between the passes holds the rows row0..row1. */
  ghost predicate Buffer(buf: seq<seq<real>>, row0: int, row1: int, cols: int) {
    |buf| == row1 - row0 + 1 && forall m :: 0 <= m < |buf| ==> |buf[m]| == cols
  }

  /** n taps of column i of the buffer; rows outside it count as black. */
  ghost function ColumnOf(p: Plan, buf: seq<seq<real>>, row0: int, row1: int, i: nat, j: nat, k0: int, n: nat): real
    requires p.Valid() && Buffer(buf, row0, row1, p.Width()) && i < p.Width()
  {
    if n == 0 then 0.0
    else
      var k := k0 + n - 1;
      ColumnOf(p, buf, row0, row1, i, j, k0, n - 1)
      + Weight(p.kernel, p.ay, j, k) * (if row0 <= k <= row1 then buf[k - row0][i] else p.pic.black as real)
  }

  /** What the second pass makes of the buffer for output sample (i, j). */
  ghost function FromBuffer(p: Plan, buf: seq<seq<real>>, row0: int, row1: int, i: nat, j: nat): int
    requires p.Valid() && Buffer(buf, row0, row1, p.Width()) && i < p.Width()
  {
    var sp := SpanOf(p.kernel, p.ay, j);
    if sp.norm == 0.0 then p.pic.black
    else RoundComp(ColumnOf(p, buf, row0, row1, i, j, sp.k0, sp.n) / sp.norm, p.pic.maxv)
  }

  /** The second pass on a buffer, as a job for threads. */
  ghost function SecondPassOn(p: Plan, buf: seq<seq<real>>, row0: int, row1: int): Pass<int>
    requires p.Valid() && p.Width() >= 0 && p.Height() >= 0 && Buffer(buf, row0, row1, p.Width())
  {
    Pass(p.Height(), p.Width(),
         (j: nat, i: nat) => if i < p.Width() && p.Written(i, j) then Some(FromBuffer(p, buf, row0, row1, i, j))
                             else None)
  }

  lemma SecondPassOnIs(p: Plan, buf: seq<seq<real>>, row0: int, row1: int, j: nat, i: nat)
    requires p.Valid() && p.Width() >= 0 && p.Height() >= 0 && Buffer(buf, row0, row1, p.Width()) && i < p.Width()
    ensures SecondPassOn(p, buf, row0, row1).rows == p.Height() && SecondPassOn(p, buf, row0, row1).cols == p.Width()
    ensures SecondPassOn(p, buf, row0, row1).value(j, i)
         == if p.Written(i, j) then Some(FromBuffer(p, buf, row0, row1, i, j)) else None
  {
    hide FromBuffer, Plan.Written, PlaneSize;
  }

  /** Sample i of buffer row m is finished. */
  ghost predicate AcrossAt(p: Plan, buf: seq<seq<real>>, row0: int, m: nat, i: nat)
    requires p.Valid()
  {
    m < |buf| && i < |buf[m]| && buf[m][i] == HorizValue(p.kernel, p.ax, i, p.pic, row0 + m)
  }

  /** The buffer is finished: it holds the first pass. */
  ghost predicate Across(p: Plan, buf: seq<seq<real>>, row0: int, row1: int)
    requires p.Valid() && Buffer(buf, row0, row1, p.Width())
  {
    forall m: nat, i: nat :: m < |buf| && i < p.Width() ==> AcrossAt(p, buf, row0, m, i)
  }

  lemma {:induction false} ColumnOfAcross(p: Plan, buf: seq<seq<real>>, row0: int, row1: int, i: nat, j: nat, k0: int,
                                          n: nat)
    requires p.Valid() && Buffer(buf, row0, row1, p.Width()) && i < p.Width() && Across(p, buf, row0, row1)
    ensures ColumnOf(p, buf, row0, row1, i, j, k0, n) == ColumnSum(p.kernel, p.ax, p.ay, i, j, p.pic, row0, row1, k0, n)
  {
    hide HorizValue, Weight, PlaneSize, Picture.Valid, Window.Valid, Axis.Valid, Axis.Radius, Vanishes;
    if n > 0 {
      ColumnOfAcross(p, buf, row0, row1, i, j, k0, n - 1);
      var k := k0 + n - 1;
      assert row0 <= k <= row1 ==> AcrossAt(p, buf, row0, k - row0, i);
    }
  }

  lemma FromAcross(p: Plan, buf: seq<seq<real>>, row0: int, row1: int, i: nat, j: nat)
    requires p.Valid() && Buffer(buf, row0, row1, p.Width()) && i < p.Width() && Across(p, buf, row0, row1)
    requires j < p.Height()
    requires (row0, row1) == RowRange(p.ay, p.Height(), p.pic.height)
    ensures FromBuffer(p, buf, row0, row1, i, j) == DirectValue(p.kernel, p.ax, p.ay, i, j, p.pic)
  {
    hide ColumnOf, ColumnSum, SpanOf, RoundComp, DirectValue, RowRange, Across, PlaneSize, Vanishes, Axis.Radius,
         Picture.Valid, Window.Valid,
         Axis.Valid;
    var sp := SpanOf(p.kernel, p.ay, j);
    ColumnOfAcross(p, buf, row0, row1, i, j, sp.k0, sp.n);
    TwoPassIsDirect(p.kernel, p.ax, p.ay, i, j, p.pic, p.Height());
  }

  lemma GridIsBuffer(pass: Pass<real>, m: Machine<real>, row0: int, row1: int)
    requires Shaped(pass, m) && pass.rows == row1 - row0 + 1
    ensures Buffer(m.grid, row0, row1, pass.cols)
  {
  }

  /** A settled sample of a pass that stores everywhere. */
  lemma SettledValue<T>(pass: Pass<T>, start: Machine<T>, m: Machine<T>, y: nat, x: nat, v: T)
    requires Shaped(pass, start) && Shaped(pass, m) && y < pass.rows && x < pass.cols
    requires Settled(pass, start, m, y, x) && pass.value(y, x) == Some(v)
    ensures y < |m.grid| && x < |m.grid[y]| && m.grid[y][x] == v
  {
  }

  lemma FirstPassAt(p: Plan, row0: int, row1: int, pass: Pass<real>, start: Machine<real>, schedule: seq<nat>, y: nat,
                    x: nat)
    requires p.Valid() && row1 - row0 + 1 >= 0 && 0 <= p.Width() && pass == FirstPass(p, row0, row1)
    requires Shaped(pass, start) && Started(pass, start) && Finished(pass, After(pass, start, schedule, |schedule|))
    requires y < row1 - row0 + 1 && x < p.Width()
    ensures AcrossAt(p, After(pass, start, schedule, |schedule|).grid, row0, y, x)
  {
    hide Shaped, Started, After, Finished, Settled, HorizValue, PlaneSize, FirstPass, Picture.Valid, Window.Valid,
         Axis.Valid,
         Axis.Radius, Vanishes;
    FirstPassIs(p, row0, row1, y, x);
    AnySchedule(pass, start, schedule, y, x);
    SettledValue(pass, start, After(pass, start, schedule, |schedule|), y, x,
                 HorizValue(p.kernel, p.ax, x, p.pic, row0 + y));
  }

  /** The first pass, finished on any threads, leaves a finished buffer. */
  lemma FirstPassFinished(p: Plan, row0: int, row1: int, pass: Pass<real>, start: Machine<real>, schedule: seq<nat>)
    requires p.Valid() && p.Width() >= 1 && row1 - row0 + 1 >= 0 && pass == FirstPass(p, row0, row1)
    requires Shaped(pass, start) && Started(pass, start) && Finished(pass, After(pass, start, schedule, |schedule|))
    ensures var buf := After(pass, start, schedule, |schedule|).grid;
            Buffer(buf, row0, row1, p.Width()) && Across(p, buf, row0, row1)
  {
    hide Shaped, Started, After, Finished, PlaneSize, FirstPass, Plan.Valid, AcrossAt;
    var buf := After(pass, start, schedule, |schedule|).grid;
    FirstPassIs(p, row0, row1, 0, 0);
    GridIsBuffer(pass, After(pass, start, schedule, |schedule|), row0, row1);
    forall m: nat, i: nat | m < |buf| && i < p.Width()
      ensures AcrossAt(p, buf, row0, m, i)
    {
      FirstPassAt(p, row0, row1, pass, start, schedule, m, i);
    }
  }

  /** Sample (y, x) holds v, stored there once; or without v it holds what it held, and nothing was stored. */
  ghost predicate Outcome<T>(start: Machine<T>, m: Machine<T>, y: nat, x: nat, v: Option<T>)
    requires y < |start.grid| && x < |start.grid[y]|
  {
    match v
    case Some(w) => HoldsOnce(m, y, x, w)
    case None => && y < |m.grid| && x < |m.grid[y]| && m.grid[y][x] == start.grid[y][x]
                 && y < |m.stores| && x < |m.stores[y]| && m.stores[y][x] == 0
  }

  lemma SettledOutcome<T>(pass: Pass<T>, start: Machine<T>, m: Machine<T>, y: nat, x: nat)
    requires Shaped(pass, start) && Shaped(pass, m) && y < pass.rows && x < pass.cols && Settled(pass, start, m, y, x)
    ensures Outcome(start, m, y, x, pass.value(y, x))
  {
  }

  /**
   * From end to end: any schedule of the first pass on any number of threads, all of them joined, and then
   * any schedule of the second pass on any number of threads, stores the direct sum exactly once in each
   * sample that is to be written, and nothing anywhere else. The first pass reads rows of the picture only.
   */
  lemma BothPassesAnySchedule(p: Plan, row0: int, row1: int,
                              first: Pass<real>, start1: Machine<real>, schedule1: seq<nat>,
                              buf: seq<seq<real>>, second: Pass<int>, start2: Machine<int>, schedule2: seq<nat>,
                                   j: nat, i: nat)
    requires p.Valid() && p.Width() >= 1 && p.Height() >= 1 && (row0, row1) == RowRange(p.ay, p.Height(), p.pic.height)
    requires row1 - row0 + 1 >= 0 && first == FirstPass(p, row0, row1)
    requires Shaped(first, start1) && Started(first, start1)
    requires Finished(first, After(first, start1, schedule1, |schedule1|))
    requires buf == After(first, start1, schedule1, |schedule1|).grid && Buffer(buf, row0, row1, p.Width())
    requires second == SecondPassOn(p, buf, row0, row1)
    requires Shaped(second, start2) && Started(second, start2)
    requires Finished(second, After(second, start2, schedule2, |schedule2|))
    requires j < p.Height() && i < p.Width()
    ensures 0 <= row0 && row1 < p.pic.height
    ensures j < |start2.grid| && i < |start2.grid[j]|
    ensures Outcome(start2, After(second, start2, schedule2, |schedule2|), j, i,
                    if p.Written(i, j) then Some(DirectValue(p.kernel, p.ax, p.ay, i, j, p.pic)) else None)
  {
    hide Started, After, Finished, PlaneSize, FirstPass, SecondPassOn, Across, FromBuffer, DirectValue, Plan.Written,
         Settled, Outcome,
         Vanishes, Axis.Radius, Picture.Valid, Window.Valid, Buffer, RowRange;
    RowRangeInside(p.ay, p.Height(), p.pic.height);
    FirstPassFinished(p, row0, row1, first, start1, schedule1);
    FromAcross(p, buf, row0, row1, i, j);
    SecondPassOnIs(p, buf, row0, row1, j, i);
    AnySchedule(second, start2, schedule2, j, i);
    SettledOutcome(second, start2, After(second, start2, schedule2, |schedule2|), j, i);
  }
}

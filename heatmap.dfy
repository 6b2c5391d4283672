/**
 * The heatmap library shared by the three devcard renderers: it turns the
 * `claude` section of a card into a 24-bucket hour-of-day distribution,
 * rotates that distribution so that the longest quiet stretch is centred on
 * the left edge, and names the hours shown on the axis.
 */
module Heatmap {
  import opened Js

  /** Buckets of an hour distribution, one per hour of the day. */
  const Hours: nat := 24

  /** Slots of the doubled scan that lets a quiet stretch wrap past midnight. */
  const ScanSlots: nat := 48

  // ===========================================================================
  // buildHourDist

  /**
   * One row of the `heatmap` matrix, classified the way buildHourDist looks at
   * it. A cell is `Some(n)` when `Number(x)` is the integer `n` and `None` when
   * it is not a number (`NaN`).
   */
  datatype Row =
    | NumRow(cells: seq<Option<int>>)            // the row is an array
    | TextRow(parsed: Option<seq<Option<int>>>)  // a string; Some(cells) when JSON.parse gives an array
    | OtherRow                                   // neither a string nor an array

  /**
   * The two fields of the `claude` section that buildHourDist reads: each is
   * `Some` exactly when the field holds an array.
   */
  datatype ClaudeSection = ClaudeSection(hourDistribution: Option<seq<int>>, heatmap: Option<seq<Row>>)

  /** The cells a row contributes: a malformed text row or a non-array row contributes none. */
  function RowNums(row: Row): seq<Option<int>>
  {
    match row
    case NumRow(cells) => cells
    case TextRow(Some(cells)) => cells
    case TextRow(None) => []
    case OtherRow => []
  }

  /** `Number(x) || 0`. */
  function CellValue(x: Option<int>): int
  {
    match x
    case Some(n) => n
    case None => 0
  }

  /** What `row` adds to hour `h`: nothing past the end of the row. */
  function RowCell(row: Row, h: int): int
  {
    var nums := RowNums(row);
    if 0 <= h < |nums| then CellValue(nums[h]) else 0
  }

  /** The sum, over all rows, of what each row adds to hour `h`. */
  function ColumnSum(rows: seq<Row>, h: int): int
  {
    if |rows| == 0 then 0 else ColumnSum(rows[..|rows| - 1], h) + RowCell(rows[|rows| - 1], h)
  }

  /** The distribution buildHourDist returns, or None where it returns `null`. */
  function HourDist(cl: ClaudeSection): (r: Option<seq<int>>)
    ensures r.Some? ==> |r.value| == Hours
  {
    if cl.hourDistribution.Some? && |cl.hourDistribution.value| == Hours then
      cl.hourDistribution
    else if cl.heatmap.Some? then
      Some(seq(Hours, h requires 0 <= h < Hours => ColumnSum(cl.heatmap.value, h)))
    else
      None
  }

  /** buildHourDist, with the zero-filled accumulator updated in place row by row. */
  method BuildHourDist(cl: ClaudeSection) returns (r: Option<seq<int>>)
    ensures r == HourDist(cl)
  {
    if cl.hourDistribution.Some? && |cl.hourDistribution.value| == Hours {
      return cl.hourDistribution;
    }
    if cl.heatmap.None? {
      return None;
    }
    var rows := cl.heatmap.value;
    var dist := new int[Hours](_ => 0);
    for k := 0 to |rows|
      invariant forall h :: 0 <= h < Hours ==> dist[h] == ColumnSum(rows[..k], h)
    {
      var nums := RowNums(rows[k]);
      var i := 0;
      while i < Hours && i < |nums|
        invariant 0 <= i <= Hours
        invariant i <= |nums|
        invariant forall h :: 0 <= h < i ==> dist[h] == ColumnSum(rows[..k], h) + CellValue(nums[h])
        invariant forall h :: i <= h < Hours ==> dist[h] == ColumnSum(rows[..k], h)
      {
        dist[i] := dist[i] + CellValue(nums[i]);
        i := i + 1;
      }
      assert rows[..k + 1][..k] == rows[..k];
    }
    assert rows[..|rows|] == rows;
    r := Some(dist[..]);
    assert r.value == HourDist(cl).value;
  }

  /** Precedence and fallthrough between the flat array, the matrix and `null`. */
  lemma HourDistCases(cl: ClaudeSection)
    ensures cl.hourDistribution.Some? && |cl.hourDistribution.value| == Hours ==>
              HourDist(cl) == cl.hourDistribution
    ensures HourDist(cl).None? <==>
              (cl.hourDistribution.None? || |cl.hourDistribution.value| != Hours) && cl.heatmap.None?
    ensures (cl.hourDistribution.None? || |cl.hourDistribution.value| != Hours) && cl.heatmap.Some? ==>
              HourDist(cl).Some? &&
              forall h :: 0 <= h < Hours ==> HourDist(cl).value[h] == ColumnSum(cl.heatmap.value, h)
  {
  }

  /** Column sums split over a concatenation of row lists. */
  lemma {:induction false} ColumnSumConcat(a: seq<Row>, b: seq<Row>, h: int)
    ensures ColumnSum(a + b, h) == ColumnSum(a, h) + ColumnSum(b, h)
    decreases |b|
  {
    if |b| == 0 {
      assert a + b == a;
    } else {
      assert (a + b)[..|a + b| - 1] == a + b[..|b| - 1];
      ColumnSumConcat(a, b[..|b| - 1], h);
    }
  }

  /** The order of the matrix rows does not matter. */
  lemma RowOrderIrrelevant(flat: Option<seq<int>>, a: seq<Row>, b: seq<Row>)
    ensures HourDist(ClaudeSection(flat, Some(a + b))) == HourDist(ClaudeSection(flat, Some(b + a)))
  {
    forall h | 0 <= h < Hours
      ensures ColumnSum(a + b, h) == ColumnSum(b + a, h)
    {
      ColumnSumConcat(a, b, h);
      ColumnSumConcat(b, a, h);
    }
    assert seq(Hours, h requires 0 <= h < Hours => ColumnSum(a + b, h))
        == seq(Hours, h requires 0 <= h < Hours => ColumnSum(b + a, h));
  }

  /** Rows that are neither arrays nor strings parsing to arrays contribute nothing. */
  lemma {:induction false} UnreadableRowsIgnored(rows: seq<Row>, h: int)
    requires forall k :: 0 <= k < |rows| ==> rows[k] == OtherRow || rows[k] == TextRow(None)
    ensures ColumnSum(rows, h) == 0
    decreases |rows|
  {
    if |rows| > 0 {
      UnreadableRowsIgnored(rows[..|rows| - 1], h);
    }
  }

  /** Two rows that agree on their first 24 values contribute the same. */
  predicate SameFirstHours(r1: Row, r2: Row)
  {
    forall h :: 0 <= h < Hours ==> RowCell(r1, h) == RowCell(r2, h)
  }

  /** Values past index 23 of a row, and missing trailing values, change nothing. */
  lemma {:induction false} ExtraColumnsIgnored(a: seq<Row>, b: seq<Row>, h: int)
    requires |a| == |b|
    requires forall k :: 0 <= k < |a| ==> SameFirstHours(a[k], b[k])
    requires 0 <= h < Hours
    ensures ColumnSum(a, h) == ColumnSum(b, h)
    decreases |a|
  {
    if |a| > 0 {
      ExtraColumnsIgnored(a[..|a| - 1], b[..|b| - 1], h);
      assert SameFirstHours(a[|a| - 1], b[|b| - 1]);
    }
  }

  /** An empty matrix gives 24 zeros, not `null`. */
  lemma EmptyMatrixGivesZeros(flat: Option<seq<int>>)
    requires flat.None? || |flat.value| != Hours
    ensures HourDist(ClaudeSection(flat, Some([]))) == Some(Zeros(Hours))
  {
    assert HourDist(ClaudeSection(flat, Some([]))).value == Zeros(Hours);
  }

  predicate NonNegative(s: seq<int>)
  {
    forall i :: 0 <= i < |s| ==> s[i] >= 0
  }

  predicate RowNonNegative(row: Row)
  {
    forall i :: 0 <= i < |RowNums(row)| ==> CellValue(RowNums(row)[i]) >= 0
  }

  lemma {:induction false} ColumnSumNonNegative(rows: seq<Row>, h: int)
    requires forall k :: 0 <= k < |rows| ==> RowNonNegative(rows[k])
    ensures ColumnSum(rows, h) >= 0
    decreases |rows|
  {
    if |rows| > 0 {
      ColumnSumNonNegative(rows[..|rows| - 1], h);
      assert RowNonNegative(rows[|rows| - 1]);
    }
  }

  /** Non-negative inputs give a non-negative distribution. */
  lemma HourDistNonNegative(cl: ClaudeSection)
    requires cl.hourDistribution.Some? ==> NonNegative(cl.hourDistribution.value)
    requires cl.heatmap.Some? ==> forall k :: 0 <= k < |cl.heatmap.value| ==> RowNonNegative(cl.heatmap.value[k])
    ensures HourDist(cl).Some? ==> NonNegative(HourDist(cl).value)
  {
    if HourDist(cl).Some? && !(cl.hourDistribution.Some? && |cl.hourDistribution.value| == Hours) {
      forall h | 0 <= h < Hours
        ensures HourDist(cl).value[h] >= 0
      {
        ColumnSumNonNegative(cl.heatmap.value, h);
      }
    }
  }

  /** Three rows `[1, 0, ..., 0, 2]` sum to `[3, 0, ..., 0, 6]`. */
  lemma ThreeRowExample()
    ensures
      var row := NumRow([Some(1)] + seq(22, _ => Some(0)) + [Some(2)]);
      var r := HourDist(ClaudeSection(None, Some([row, row, row])));
      r.Some? && r.value[0] == 3 && r.value[23] == 6 &&
      forall h :: 1 <= h < 23 ==> r.value[h] == 0
  {
    var row := NumRow([Some(1)] + seq(22, _ => Some(0)) + [Some(2)]);
    var rows := [row, row, row];
    forall h | 0 <= h < Hours
      ensures ColumnSum(rows, h) == 3 * RowCell(row, h)
    {
      assert [row][..0] == [];
      assert ColumnSum([row], h) == RowCell(row, h);
      assert [row, row][..1] == [row];
      assert ColumnSum([row, row], h) == 2 * RowCell(row, h);
      assert rows[..2] == [row, row];
    }
  }

  // ===========================================================================
  // rotateHeatmap

  /** What rotateHeatmap returns: `data[i]` is the activity of hour `(i + startHour) % 24`. */
  datatype RotatedView = RotatedView(data: seq<int>, startHour: int)

  /** The four variables of the scan loop. */
  datatype ScanState = ScanState(bestStart: int, bestLen: int, runStart: int, runLen: int)

  function Sum(s: seq<int>): int
  {
    if |s| == 0 then 0 else s[0] + Sum(s[1..])
  }

  /** `Math.max(...s)`. */
  function Max(s: seq<int>): (m: int)
    requires |s| > 0
    ensures forall i :: 0 <= i < |s| ==> s[i] <= m
    ensures exists i :: 0 <= i < |s| && s[i] == m
  {
    if |s| == 1 then s[0]
    else
      var t := Max(s[1..]);
      assert forall i :: 1 <= i < |s| ==> s[i] == s[1..][i - 1];
      if s[0] >= t then s[0] else t
  }

  function Zeros(n: nat): (z: seq<int>)
    ensures |z| == n
    ensures forall i :: 0 <= i < n ==> z[i] == 0
  {
    seq(n, _ => 0)
  }

  /**
   * Scan slot `i` is on a quiet hour: the hour `i % 24` is at or below a tenth
   * of the maximum (`v <= max * 0.1`, written exactly on integers).
   */
  predicate QuietAt(d: seq<int>, i: int)
    requires |d| == Hours
  {
    10 * d[i % Hours] <= Max(d)
  }

  /**
   * One iteration of the scan loop at slot `i`: a quiet slot extends the
   * current run by one, up to 24, and the best run only ever grows, and only
   * to the current run; a loud slot ends the current run.
   */
  function ScanStep(d: seq<int>, st: ScanState, i: int): (r: ScanState)
    requires |d| == Hours
    ensures r.bestLen >= st.bestLen
    ensures r.bestLen > st.bestLen ==> r.bestStart == r.runStart && r.bestLen == r.runLen
    ensures r.bestLen == st.bestLen ==> r.bestStart == st.bestStart
    ensures QuietAt(d, i) ==> r.runLen == (if st.runLen < Hours then st.runLen + 1 else Hours)
    ensures QuietAt(d, i) && st.runStart >= 0 ==> r.runStart == st.runStart
    ensures QuietAt(d, i) && st.runStart < 0 ==> r.runStart == i
    ensures !QuietAt(d, i) ==> r.runStart == -1 && r.runLen == 0
  {
    if QuietAt(d, i) then
      var rs := if st.runStart < 0 then i else st.runStart;
      var rl := if st.runLen + 1 > Hours then Hours else st.runLen + 1;
      if rl > st.bestLen then ScanState(rs, rl, rs, rl)
      else ScanState(st.bestStart, st.bestLen, rs, rl)
    else
      ScanState(st.bestStart, st.bestLen, -1, 0)
  }

  /** The scan variables after the first `n` slots: the current run is never longer than the best one, nor than 24 or `n`. */
  function Scan(d: seq<int>, n: nat): (r: ScanState)
    requires |d| == Hours
    ensures 0 <= r.runLen <= r.bestLen <= Hours
    ensures r.bestLen <= n
    decreases n
  {
    if n == 0 then ScanState(0, 0, -1, 0) else ScanStep(d, Scan(d, n - 1), n - 1)
  }

  /** The scan variables after all 48 slots (written through `|d|`, which is 24). */
  function DayScan(d: seq<int>): (r: ScanState)
    requires |d| == Hours
    ensures 0 <= r.bestLen <= Hours
  {
    Scan(d, 2 * |d|)
  }

  /**
   * The hour at the middle of the best quiet run, `(bestStart + floor(bestLen / 2)) % 24`;
   * JavaScript's `%` gives the same hour, since both operands are non-negative after a scan.
   */
  function Midpoint(st: ScanState): (m: int)
    ensures 0 <= m < Hours
    ensures st.bestStart >= 0 && st.bestLen >= 0 ==> m == JsRem(st.bestStart + st.bestLen / 2, Hours)
  {
    (st.bestStart + st.bestLen / 2) % Hours
  }

  function RotateBy(d: seq<int>, k: int): (r: seq<int>)
    requires |d| == Hours
  {
    seq(Hours, i requires 0 <= i < Hours => d[(i + k) % Hours])
  }

  /** What rotateHeatmap returns for `dist` (None stands for `null`/`undefined`). */
  function Rotate(dist: Option<seq<int>>): (v: RotatedView)
    ensures dist.None? ==> v == RotatedView(Zeros(Hours), 0)
    ensures dist.Some? && |dist.value| != Hours ==> v == RotatedView(dist.value, 0)
    ensures dist.Some? && |dist.value| == Hours ==>
              && |v.data| == Hours
              && 0 <= v.startHour < Hours
              && forall i :: 0 <= i < Hours ==> v.data[i] == dist.value[(i + v.startHour) % Hours]
  {
    match dist
    case None => RotatedView(Zeros(Hours), 0)
    case Some(d) =>
      if |d| != Hours then RotatedView(d, 0)
      else if Sum(d) == 0 then RotatedView(d, 0)
      else
        var st := DayScan(d);
        if st.bestLen == 0 then RotatedView(d, 0)
        else
          var mid := Midpoint(st);
          if mid == 0 || st.bestLen < 3 then RotatedView(d, 0)
          else RotatedView(RotateBy(d, mid), mid)
  }

  /**
   * The scan loop of rotateHeatmap: 48 slots, so that a quiet run may wrap past
   * midnight, tracking the current run and the first longest one.
   */
  method ScanQuietHours(d: seq<int>) returns (bestStart: int, bestLen: int)
    requires |d| == Hours
    ensures bestStart == DayScan(d).bestStart && bestLen == DayScan(d).bestLen
  {
    var max := Max(d);
    var runStart, runLen;
    bestStart, bestLen, runStart, runLen := 0, 0, -1, 0;
    for i := 0 to ScanSlots
      invariant ScanState(bestStart, bestLen, runStart, runLen) == Scan(d, i)
    {
      var hour := i % Hours;
      if 10 * d[hour] <= max {
        if runStart < 0 {
          runStart := i;
        }
        runLen := runLen + 1;
        if runLen > Hours {
          runLen := Hours;
        }
        if runLen > bestLen {
          bestLen := runLen;
          bestStart := runStart;
        }
      } else {
        runStart := -1;
        runLen := 0;
      }
    }
  }

  /** rotateHeatmap: the input checks, the scan, and the fill loop. */
  method RotateHeatmap(dist: Option<seq<int>>) returns (view: RotatedView)
    ensures view == Rotate(dist)
  {
    if dist.None? {
      return RotatedView(Zeros(Hours), 0);
    }
    var d := dist.value;
    if |d| != Hours {
      return RotatedView(d, 0);
    }
    var total := Sum(d);
    if total == 0 {
      return RotatedView(d, 0);
    }
    var bestStart, bestLen := ScanQuietHours(d);
    if bestLen == 0 {
      return RotatedView(d, 0);
    }
    var midpoint := (bestStart + bestLen / 2) % Hours;
    if midpoint == 0 || bestLen < 3 {
      return RotatedView(d, 0);
    }
    var rotated := new int[Hours];
    for i := 0 to Hours
      invariant forall k :: 0 <= k < i ==> rotated[k] == d[(k + midpoint) % Hours]
    {
      rotated[i] := d[(i + midpoint) % Hours];
    }
    assert rotated[..] == RotateBy(d, midpoint);
    view := RotatedView(rotated[..], midpoint);
  }

  // ---------------------------------------------------------------------------
  // What the scan finds

  /** Scan slots `s .. e-1` all fall on quiet hours (slot `i` is hour `i % 24`). */
  ghost predicate QuietSpan(d: seq<int>, s: int, e: int)
    requires |d| == Hours
  {
    forall i :: s <= i < e ==> QuietAt(d, i)
  }

  /** A quiet run of `len` slots starting at slot `s`, wrapping past hour 23. */
  ghost predicate QuietRun(d: seq<int>, s: int, len: int)
    requires |d| == Hours
  {
    QuietSpan(d, s, s + len)
  }

  /** What the current-run variables mean after `n` slots. */
  ghost predicate RunInv(d: seq<int>, n: nat, st: ScanState)
    requires |d| == Hours
  {
    && 0 <= st.runLen <= st.bestLen <= Hours
    && (st.runLen == 0 ==> st.runStart == -1 && (n == 0 || !QuietAt(d, n - 1)))
    && (st.runLen > 0 ==>
          && 0 <= st.runStart < n
          && st.runLen == (if n - st.runStart > Hours then Hours else n - st.runStart)
          && QuietSpan(d, st.runStart, n)
          && (st.runStart == 0 || !QuietAt(d, st.runStart - 1)))
  }

  /** What the best-run variables mean after `n` slots: a quiet run, the longest seen, the first of that length. */
  ghost predicate BestInv(d: seq<int>, n: nat, st: ScanState)
    requires |d| == Hours
  {
    && (st.bestLen == 0 ==> st.bestStart == 0)
    && (st.bestLen > 0 ==>
          0 <= st.bestStart && st.bestStart + st.bestLen <= n && QuietRun(d, st.bestStart, st.bestLen))
    && (forall s, len :: 0 <= s && 0 <= len <= Hours && s + len <= n && QuietRun(d, s, len) ==> len <= st.bestLen)
    && (forall s :: 0 <= s < st.bestStart && s + st.bestLen <= n ==> !QuietRun(d, s, st.bestLen))
  }

  /** No quiet stretch ending at slot `e` starts before slot `rs`. */
  ghost predicate StartsEarliest(d: seq<int>, rs: int, e: int)
    requires |d| == Hours
  {
    forall s :: 0 <= s < e && QuietSpan(d, s, e) ==> rs <= s
  }

  /** The run that slot `n` extends starts no later than any quiet stretch ending at `n`. */
  lemma RunStartAfterStep(d: seq<int>, n: nat, st: ScanState)
    requires |d| == Hours
    requires RunInv(d, n, st)
    requires QuietAt(d, n)
    ensures var rs := ScanStep(d, st, n).runStart;
      && 0 <= rs <= n
      && QuietSpan(d, rs, n + 1)
      && StartsEarliest(d, rs, n + 1)
  {
    var rs := ScanStep(d, st, n).runStart;
    assert rs == 0 || !QuietAt(d, rs - 1);
  }

  // The step lemmas below take `n` as the slot count after the step, so that
  // their conclusions mention `n` exactly as ScanInv does.

  lemma StepQuietRun(d: seq<int>, n: nat, st: ScanState)
    requires |d| == Hours && n > 0
    requires RunInv(d, n - 1, st) && QuietAt(d, n - 1)
    ensures RunInv(d, n, ScanStep(d, st, n - 1))
  {
    RunStartAfterStep(d, n - 1, st);
  }

  lemma StepQuietBest(d: seq<int>, n: nat, st: ScanState)
    requires |d| == Hours && n > 0
    requires RunInv(d, n - 1, st) && BestInv(d, n - 1, st) && QuietAt(d, n - 1)
    ensures BestInv(d, n, ScanStep(d, st, n - 1))
  {
    var st' := ScanStep(d, st, n - 1);
    RunStartAfterStep(d, n - 1, st);
    assert QuietRun(d, st'.bestStart, st'.bestLen);
  }

  lemma StepNotQuiet(d: seq<int>, n: nat, st: ScanState)
    requires |d| == Hours && n > 0
    requires RunInv(d, n - 1, st) && BestInv(d, n - 1, st) && !QuietAt(d, n - 1)
    ensures RunInv(d, n, ScanStep(d, st, n - 1)) && BestInv(d, n, ScanStep(d, st, n - 1))
  {
  }

  lemma StepKeepsInv(d: seq<int>, n: nat)
    requires |d| == Hours && n > 0
    requires RunInv(d, n - 1, Scan(d, n - 1)) && BestInv(d, n - 1, Scan(d, n - 1))
    ensures RunInv(d, n, Scan(d, n)) && BestInv(d, n, Scan(d, n))
  {
    var st := Scan(d, n - 1);
    assert Scan(d, n) == ScanStep(d, st, n - 1);
    if QuietAt(d, n - 1) {
      StepQuietRun(d, n, st);
      StepQuietBest(d, n, st);
    } else {
      StepNotQuiet(d, n, st);
    }
  }

  lemma {:induction false} ScanInv(d: seq<int>, n: nat)
    requires |d| == Hours
    ensures RunInv(d, n, Scan(d, n)) && BestInv(d, n, Scan(d, n))
    decreases n
  {
    if n > 0 {
      ScanInv(d, n - 1);
      StepKeepsInv(d, n);
    }
  }

  /** A run seen a day later is the same run. */
  lemma QuietRunShift(d: seq<int>, s: int, len: int)
    requires |d| == Hours
    ensures QuietRun(d, s + Hours, len) <==> QuietRun(d, s, len)
  {
    forall i | s <= i < s + len
      ensures QuietAt(d, i) == QuietAt(d, i + Hours)
    {
      assert (i + Hours) % Hours == i % Hours;
    }
    if QuietRun(d, s, len) {
      forall j | s + Hours <= j < s + Hours + len
        ensures QuietAt(d, j)
      {
        assert QuietAt(d, j - Hours);
      }
    }
    if QuietRun(d, s + Hours, len) {
      forall i | s <= i < s + len
        ensures QuietAt(d, i)
      {
        assert QuietAt(d, i + Hours);
      }
    }
  }

  /** The best run of the full scan is a run of the day that begins at an hour 0..23. */
  lemma ScanBestIsADayRun(d: seq<int>)
    requires |d| == Hours
    ensures var st := DayScan(d);
      && BestInv(d, ScanSlots, st)
      && 0 <= st.bestLen <= Hours
      && 0 <= st.bestStart < Hours
  {
    var st := DayScan(d);
    ScanInv(d, 2 * |d|);
    QuietRunShift(d, st.bestStart - Hours, st.bestLen);
    assert st.bestStart < Hours;
  }

  /** The scan finds a quiet hour exactly when there is one. */
  lemma ScanEmptyIffNoQuietHour(d: seq<int>)
    requires |d| == Hours
    ensures DayScan(d).bestLen == 0 <==> forall h :: 0 <= h < Hours ==> !QuietAt(d, h)
  {
    var st := DayScan(d);
    ScanBestIsADayRun(d);
    forall h | 0 <= h < Hours && QuietAt(d, h)
      ensures st.bestLen >= 1
    {
      assert QuietRun(d, h, 1);
    }
    assert st.bestLen > 0 ==> QuietAt(d, st.bestStart);
  }

  lemma AllQuietFullRun(d: seq<int>)
    requires |d| == Hours
    requires forall h :: 0 <= h < Hours ==> QuietAt(d, h)
    ensures DayScan(d).bestLen == Hours && DayScan(d).bestStart == 0
  {
    ScanBestIsADayRun(d);
    assert QuietRun(d, 0, Hours);
  }

  lemma DayRunAllQuiet(d: seq<int>, s: int)
    requires |d| == Hours && 0 <= s < Hours && QuietRun(d, s, Hours)
    ensures forall h :: 0 <= h < Hours ==> QuietAt(d, h)
  {
    forall h | 0 <= h < Hours
      ensures QuietAt(d, h)
    {
      var i := if h >= s then h else h + Hours;
      assert QuietAt(d, i);
      assert i % Hours == h;
    }
  }

  lemma FullRunAllQuiet(d: seq<int>)
    requires |d| == Hours
    requires DayScan(d).bestLen == Hours
    ensures forall h :: 0 <= h < Hours ==> QuietAt(d, h)
  {
    ScanBestIsADayRun(d);
    DayRunAllQuiet(d, DayScan(d).bestStart);
  }

  /** The best run covers all 24 hours exactly when every hour is quiet, and then it starts at hour 0. */
  lemma ScanFullIffAllQuiet(d: seq<int>)
    requires |d| == Hours
    ensures DayScan(d).bestLen == Hours <==> forall h :: 0 <= h < Hours ==> QuietAt(d, h)
    ensures DayScan(d).bestLen == Hours ==> DayScan(d).bestStart == 0
  {
    if DayScan(d).bestLen == Hours {
      FullRunAllQuiet(d);
    }
    if forall h :: 0 <= h < Hours ==> QuietAt(d, h) {
      AllQuietFullRun(d);
    }
  }

  /**
   * After the 48 slots, the best run is the longest circular run of quiet hours
   * (at most 24), it begins at an hour 0..23, and no earlier hour begins a run
   * as long. It is empty exactly when no hour is quiet and spans the whole day
   * exactly when every hour is quiet.
   */
  lemma QuietScan(d: seq<int>)
    requires |d| == Hours
    ensures var st := DayScan(d);
      && 0 <= st.bestLen <= Hours
      && 0 <= st.bestStart < Hours
      && QuietRun(d, st.bestStart, st.bestLen)
      && (forall s, len :: 0 <= s < Hours && 0 <= len <= Hours && QuietRun(d, s, len) ==> len <= st.bestLen)
      && (forall s :: 0 <= s < st.bestStart ==> !QuietRun(d, s, st.bestLen))
      && (st.bestLen == 0 <==> forall h :: 0 <= h < Hours ==> !QuietAt(d, h))
      && (st.bestLen == Hours <==> forall h :: 0 <= h < Hours ==> QuietAt(d, h))
      && (st.bestLen == Hours ==> st.bestStart == 0)
  {
    ScanBestIsADayRun(d);
    ScanEmptyIffNoQuietHour(d);
    ScanFullIffAllQuiet(d);
  }

  // ---------------------------------------------------------------------------
  // What the rotation preserves and when it happens

  lemma {:induction false} SumConcat(a: seq<int>, b: seq<int>)
    ensures Sum(a + b) == Sum(a) + Sum(b)
    decreases |a|
  {
    if |a| == 0 {
      assert a + b == b;
    } else {
      assert (a + b)[1..] == a[1..] + b;
      SumConcat(a[1..], b);
    }
  }

  lemma RotateByIsSplice(d: seq<int>, k: int)
    requires |d| == Hours && 0 <= k < Hours
    ensures RotateBy(d, k) == d[k..] + d[..k]
  {
    var r := RotateBy(d, k);
    forall i | 0 <= i < Hours
      ensures r[i] == (d[k..] + d[..k])[i]
    {
      if i + k < Hours {
        assert (i + k) % Hours == i + k;
      } else {
        assert (i + k) % Hours == i + k - Hours;
      }
    }
  }

  lemma RotateByPreservesValues(d: seq<int>, k: int)
    requires |d| == Hours && 0 <= k < Hours
    ensures multiset(RotateBy(d, k)) == multiset(d)
    ensures Sum(RotateBy(d, k)) == Sum(d)
  {
    RotateByIsSplice(d, k);
    assert d == d[..k] + d[k..];
    SumConcat(d[k..], d[..k]);
    SumConcat(d[..k], d[k..]);
  }

  lemma RotateIsRotateBy(d: seq<int>)
    requires |d| == Hours
    ensures 0 <= Rotate(Some(d)).startHour < Hours
    ensures Rotate(Some(d)).data == RotateBy(d, Rotate(Some(d)).startHour)
  {
  }

  /** The rotated data has the same values as the input, with the same multiplicities and total. */
  lemma RotatePreservesValues(d: seq<int>)
    requires |d| == Hours
    ensures multiset(Rotate(Some(d)).data) == multiset(d)
    ensures Sum(Rotate(Some(d)).data) == Sum(d)
  {
    RotateIsRotateBy(d);
    RotateByPreservesValues(d, Rotate(Some(d)).startHour);
  }

  /** The rotated day is a cyclic shift of the input: every bucket moves, none is lost or duplicated. */
  lemma RotateIsCyclicShift(d: seq<int>)
    requires |d| == Hours
    ensures var v := Rotate(Some(d));
      && |v.data| == Hours && 0 <= v.startHour < Hours
      && (forall i :: 0 <= i < Hours ==> v.data[i] == d[(i + v.startHour) % Hours])
      && multiset(v.data) == multiset(d)
  {
    RotatePreservesValues(d);
  }

  /** The rotation is skipped exactly in the degenerate cases; otherwise it starts at the midpoint. */
  lemma RotationCases(d: seq<int>)
    requires |d| == Hours
    ensures var v := Rotate(Some(d)); var st := DayScan(d);
      && (v.startHour == 0 <==> Sum(d) == 0 || st.bestLen == 0 || Midpoint(st) == 0 || st.bestLen < 3)
      && (v.startHour == 0 ==> v.data == d)
      && (v.startHour != 0 ==> v.startHour == Midpoint(st) && st.bestLen >= 3)
  {
  }

  /**
   * A rotation, when it happens, starts at the middle of the first longest
   * circular run of quiet hours, which is at least 3 hours long.
   */
  lemma RotationCentresQuietRun(d: seq<int>)
    requires |d| == Hours
    requires Rotate(Some(d)).startHour != 0
    ensures exists s, len ::
      && 0 <= s < Hours && 3 <= len <= Hours
      && QuietRun(d, s, len)
      && Rotate(Some(d)).startHour == (s + len / 2) % Hours
      && (forall s', len' :: 0 <= s' < Hours && 0 <= len' <= Hours && QuietRun(d, s', len') ==> len' <= len)
      && (forall s' :: 0 <= s' < s ==> !QuietRun(d, s', len))
  {
    QuietScan(d);
    var st := DayScan(d);
    assert QuietRun(d, st.bestStart, st.bestLen);
  }

  lemma {:induction false} SumOfZeros(s: seq<int>)
    requires forall i :: 0 <= i < |s| ==> s[i] == 0
    ensures Sum(s) == 0
    decreases |s|
  {
    if |s| > 0 {
      SumOfZeros(s[1..]);
    }
  }

  /** An all-zero distribution is returned as it is. */
  lemma AllZeroNotRotated(d: seq<int>)
    requires |d| == Hours
    requires forall i :: 0 <= i < Hours ==> d[i] == 0
    ensures Rotate(Some(d)) == RotatedView(d, 0)
  {
    SumOfZeros(d);
  }

  /** Without a single quiet hour there is nothing to centre: no rotation. */
  lemma NoQuietHourNotRotated(d: seq<int>)
    requires |d| == Hours
    requires forall h :: 0 <= h < Hours ==> !QuietAt(d, h)
    ensures Rotate(Some(d)) == RotatedView(d, 0)
  {
    QuietScan(d);
  }

  /** A uniform non-zero distribution is returned as it is. */
  lemma UniformNotRotated(d: seq<int>, c: int)
    requires |d| == Hours && c > 0
    requires forall i :: 0 <= i < Hours ==> d[i] == c
    ensures Rotate(Some(d)) == RotatedView(d, 0)
  {
    assert d[0] == c;
    NoQuietHourNotRotated(d);
  }

  /** A single peak survives the rotation exactly once. */
  lemma SinglePeakKept(d: seq<int>)
    requires d == Zeros(Hours)[3 := 100]
    ensures multiset(Rotate(Some(d)).data)[100] == 1
  {
    RotatePreservesValues(d);
    var a, b := Zeros(3), Zeros(20);
    assert d == a + [100] + b;
    assert 100 !in a && 100 !in b;
    assert multiset(d) == multiset(a) + multiset{100} + multiset(b);
  }

  // ===========================================================================
  // heatmapAxisLabels

  /** Positions of the rotated array that carry an axis label. */
  const AxisPositions: seq<int> := [0, 6, 12, 18, 23]

  /** heatmapAxisLabels: the hour shown at each labelled position. */
  function AxisLabels(startHour: int): (labels: seq<string>)
    ensures |labels| == |AxisPositions|
  {
    seq(|AxisPositions|, k requires 0 <= k < |AxisPositions| =>
      IntToString(JsRem(AxisPositions[k] + startHour, Hours)))
  }

  /** For a non-negative start hour every label reads back as the hour `(position + startHour) % 24`. */
  lemma AxisLabelsAreHours(startHour: int)
    requires startHour >= 0
    ensures forall k :: 0 <= k < |AxisPositions| ==>
      && ParseInt(AxisLabels(startHour)[k]) == (AxisPositions[k] + startHour) % Hours
      && 0 <= ParseInt(AxisLabels(startHour)[k]) < Hours
  {
    forall k | 0 <= k < |AxisPositions|
      ensures ParseInt(AxisLabels(startHour)[k]) == (AxisPositions[k] + startHour) % Hours
    {
      IntToStringRoundTrip((AxisPositions[k] + startHour) % Hours);
    }
  }

  /** With no rotation the labels are the plain hours 0, 6, 12, 18 and 23. */
  lemma AxisLabelsUnrotated()
    ensures AxisLabels(0) == ["0", "6", "12", "18", "23"]
  {
    assert NatToString(12) == "12" && NatToString(18) == "18" && NatToString(23) == "23";
  }

  /** From the night-worker example: a rotation by 12 puts noon at the left edge. */
  lemma AxisLabelsNightWorker()
    ensures AxisLabels(12) == ["12", "18", "0", "6", "11"]
  {
    assert NatToString(12) == "12" && NatToString(18) == "18" && NatToString(11) == "11";
  }

  /** A rotation by 6 wraps the last two labels past midnight. */
  lemma AxisLabelsFromSix()
    ensures AxisLabels(6) == ["6", "12", "18", "0", "5"]
  {
    assert NatToString(12) == "12" && NatToString(18) == "18";
  }

  /** A rotation by 18 wraps every label after the first past midnight. */
  lemma AxisLabelsFromEighteen()
    ensures AxisLabels(18) == ["18", "0", "6", "12", "17"]
  {
    assert NatToString(12) == "12" && NatToString(18) == "18" && NatToString(17) == "17";
  }

  lemma QuietAtHour(d: seq<int>, h: int)
    requires |d| == Hours && 0 <= h < Hours
    ensures QuietAt(d, h) <==> 10 * d[h] <= Max(d)
  {
    assert h % Hours == h;
  }

  /**
   * The night-worker day, hour by hour: 12, 10, 8, 6, 3 sessions from midnight
   * to 4am, none from 5am to 5pm, then 2, 5, 10, 18, 22, 20 from 6pm to 11pm.
   */
  function NightWorkerHour(h: int): int {
    if h == 0 then 12 else if h == 1 then 10 else if h == 2 then 8 else if h == 3 then 6
    else if h == 4 then 3 else if h <= 17 then 0 else if h == 18 then 2 else if h == 19 then 5
    else if h == 20 then 10 else if h == 21 then 18 else if h == 22 then 22 else 20
  }

  /** `d` holds the night-worker day. */
  predicate IsNightWorker(d: seq<int>) {
    |d| == Hours && forall h :: 0 <= h < Hours ==> d[h] == NightWorkerHour(h)
  }

  lemma NightWorkerQuietHours(d: seq<int>)
    requires IsNightWorker(d)
    ensures Max(d) == 22
    ensures forall i :: 0 <= i < |d| ==> d[i] >= 0
    ensures forall h :: 0 <= h < Hours ==> (QuietAt(d, h) <==> 5 <= h <= 18)
  {
    forall h | 0 <= h < Hours
      ensures 0 <= d[h] <= 22 && (d[h] <= 2 <==> 5 <= h <= 18)
    {
      assert d[h] == NightWorkerHour(h);
    }
    assert d[22] == 22;
    forall h | 0 <= h < Hours
      ensures QuietAt(d, h) <==> 5 <= h <= 18
    {
      QuietAtHour(d, h);
    }
  }

  /** A sum of non-negative values is at least each of them. */
  lemma {:induction false} SumAtLeast(s: seq<int>, k: int)
    requires forall i :: 0 <= i < |s| ==> s[i] >= 0
    requires 0 <= k < |s|
    ensures Sum(s) >= s[k]
    decreases |s|
  {
    if k > 0 {
      SumAtLeast(s[1..], k - 1);
    } else if |s| > 1 {
      SumAtLeast(s[1..], 0);
    }
  }

  /** A day whose quiet hours are exactly 5..18 (a 14-hour run) is rotated to start at 12, the run's middle. */
  lemma QuietFiveToEighteenStartsAtNoon(d: seq<int>)
    requires |d| == Hours && Sum(d) != 0
    requires forall h :: 0 <= h < Hours ==> (QuietAt(d, h) <==> 5 <= h <= 18)
    ensures Rotate(Some(d)) == RotatedView(RotateBy(d, 12), 12)
  {
    assert QuietRun(d, 5, 14) by {
      forall i | 5 <= i < 19
        ensures QuietAt(d, i)
      {
        assert QuietAt(d, i) == QuietAt(d, i % Hours);
      }
    }
    assert !QuietAt(d, 4) && !QuietAt(d, 19) && !QuietAt(d, 20) && !QuietAt(d, 21);
    assert !QuietAt(d, 22) && !QuietAt(d, 23);
    QuietScan(d);
    var st := DayScan(d);
    var s := st.bestStart;
    var j := if s <= 4 then 4 else if s <= 19 then 19 else s;
    assert !QuietAt(d, j);
    assert st.bestLen == 14;
    var k := if s < 5 then 4 else s;
    assert QuietAt(d, k);
    assert s == 5;
    assert Midpoint(st) == 12;
    RotationCases(d);
  }

  /** The night-worker day is rotated to start at noon. */
  lemma NightWorkerStartsAtNoon(d: seq<int>)
    requires IsNightWorker(d)
    ensures Rotate(Some(d)).startHour == 12
  {
    NightWorkerQuietHours(d);
    assert d[0] == 12;
    SumAtLeast(d, 0);
    QuietFiveToEighteenStartsAtNoon(d);
  }

  /**
   * After rotation the night-worker day's activity is one contiguous block:
   * the non-zero buckets are exactly indices 6..16 (hours 18..4), and the
   * loud ones, above a tenth of the maximum, exactly indices 7..16 (hours 19..4).
   */
  lemma NightWorkerActiveBlock(d: seq<int>)
    requires IsNightWorker(d)
    ensures var v := Rotate(Some(d));
      && |v.data| == Hours
      && (forall i :: 0 <= i < Hours ==> (v.data[i] > 0 <==> 6 <= i <= 16))
      && (forall i :: 0 <= i < Hours ==> (10 * v.data[i] > Max(d) <==> 7 <= i <= 16))
  {
    NightWorkerStartsAtNoon(d);
    NightWorkerQuietHours(d);
    RotateIsCyclicShift(d);
    var v := Rotate(Some(d));
    forall i | 0 <= i < Hours
      ensures (v.data[i] > 0 <==> 6 <= i <= 16) && (10 * v.data[i] > Max(d) <==> 7 <= i <= 16)
    {
      var h := (i + 12) % Hours;
      assert v.data[i] == d[h] == NightWorkerHour(h);
      assert h == if i < 12 then i + 12 else i - 12;
      QuietAtHour(d, h);
    }
  }
}

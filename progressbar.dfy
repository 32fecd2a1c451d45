/**
  A model of a single-line terminal progress bar: a bounded counter `current`
  out of `total`, with a cached display projection (the percent, the number of
  filled cells, and the accumulated fill glyphs).

  The bar's state changes in place, so `Bar` is a class whose methods mirror
  the source step by step. Each method is tied by its postcondition to a pure
  function (`Merged`, `Refresh`, `Increment`), and the properties of the bar
  are proved as lemmas about those functions.
*/
module ProgressBar {

  // ---------------------------------------------------------------------------
  // Machine integers and conversions
  // ---------------------------------------------------------------------------

  const MinInt64: int := -0x8000_0000_0000_0000
  const MaxInt64: int := 0x7FFF_FFFF_FFFF_FFFF
  const TwoTo64: int := 0x1_0000_0000_0000_0000

  newtype int64 = x: int | -0x8000_0000_0000_0000 <= x < 0x8000_0000_0000_0000

  /** Go's `+` on `int64`: two's-complement wrap-around. */
  function WrappingAdd(a: int64, b: int64): (r: int64)
    ensures MinInt64 <= a as int + b as int <= MaxInt64 ==> r as int == a as int + b as int
    ensures (r as int - (a as int + b as int)) % TwoTo64 == 0
  {
    var sum := a as int + b as int;
    if sum > MaxInt64 then (sum - TwoTo64) as int64
    else if sum < MinInt64 then (sum + TwoTo64) as int64
    else sum as int64
  }

  /** Go's conversion of a float to an integer: truncation toward zero. */
  function Truncate(x: real): (n: int)
    ensures 0.0 <= x ==> n as real <= x < n as real + 1.0
    ensures x < 0.0 ==> n as real - 1.0 < x <= n as real
  {
    if 0.0 <= x then x.Floor else -((-x).Floor)
  }

  lemma TruncateMonotone(x: real, y: real)
    requires x <= y
    ensures Truncate(x) <= Truncate(y)
  {
  }

  // ---------------------------------------------------------------------------
  // The derived display values
  // ---------------------------------------------------------------------------

  /** The completion percentage `100 * (current / total)`, taken exactly. */
  function Percent(current: int64, total: int64): (p: real)
    requires total != 0
    ensures p * total as real == 100.0 * current as real
  {
    100.0 * (current as real / total as real)
  }

  /** The number of filled cells for a percentage on a bar `width` cells wide. */
  function Cells(percent: real, width: int64): (n: int)
    ensures 0.0 <= percent / 100.0 * width as real ==>
              n as real <= percent / 100.0 * width as real < n as real + 1.0
    ensures percent / 100.0 * width as real < 0.0 ==>
              n as real - 1.0 < percent / 100.0 * width as real <= n as real
  {
    Truncate(percent / 100.0 * width as real)
  }

  lemma PercentMonotone(a: int64, b: int64, total: int64)
    requires 0 < total && a <= b
    ensures Percent(a, total) <= Percent(b, total)
  {
    var t := total as real;
    var d := b as real / t - a as real / t;
    assert d * t == b as real - a as real;
    ProductSign(d, t);
  }

  lemma ProductSign(a: real, b: real)
    requires 0.0 < b
    ensures a < 0.0 ==> a * b < 0.0
    ensures a == 0.0 ==> a * b == 0.0
    ensures 0.0 < a ==> 0.0 < a * b
  {
  }

  /** A share `c / t` of a positive whole lies in [0, 1] and is 1 exactly for the whole. */
  lemma ShareRange(c: real, t: real)
    requires 0.0 < t && 0.0 <= c <= t
    ensures 0.0 <= c / t <= 1.0
    ensures c / t == 1.0 <==> c == t
  {
    var q := c / t;
    var d := 1.0 - q;
    assert q * t == c;
    assert d * t == t - c;
    ProductSign(q, t);
    ProductSign(d, t);
  }

  lemma PercentRange(current: int64, total: int64)
    requires 0 < total && 0 <= current <= total
    ensures 0.0 <= Percent(current, total) <= 100.0
    ensures Percent(current, total) == 100.0 <==> current == total
  {
    ShareRange(current as real, total as real);
  }

  /** Scaling by a non-negative width keeps the order of two percentages. */
  lemma ScaledMonotone(p: real, q: real, w: real)
    requires p <= q && 0.0 <= w
    ensures p / 100.0 * w <= q / 100.0 * w
  {
    var d := q / 100.0 - p / 100.0;
    assert q / 100.0 * w - p / 100.0 * w == d * w;
    if 0.0 < w {
      ProductSign(d, w);
    }
  }

  lemma CellsMonotone(p: real, q: real, width: int64)
    requires p <= q && 0 <= width
    ensures Cells(p, width) <= Cells(q, width)
  {
    ScaledMonotone(p, q, width as real);
  }

  lemma CellsRange(percent: real, width: int64)
    requires 0.0 <= percent <= 100.0 && 0 < width
    ensures 0 <= Cells(percent, width) <= width as int
    ensures percent == 100.0 ==> Cells(percent, width) == width as int
  {
    var w := width as real;
    var f := percent / 100.0;
    var x := f * w;
    var d := 1.0 - f;
    assert w - x == d * w;
    ProductSign(f, w);
    ProductSign(d, w);
    assert 0.0 <= x <= w && (percent == 100.0 ==> x == w);
    assert Cells(percent, width) == Truncate(x);
  }

  /** Truncating the exact quotient of two naturals is integer division. */
  lemma TruncatedQuotient(n: int, t: int)
    requires 0 <= n && 0 < t
    ensures Truncate(n as real / t as real) == n / t
  {
    var q, r := n / t, n % t;
    var x := n as real / t as real;
    var frac := x - q as real;
    assert x * t as real == n as real;
    assert n as real == q as real * t as real + r as real;
    assert frac * t as real == r as real;
    ShareRange(r as real, t as real);
    var share := r as real / t as real;
    assert share * t as real == r as real;
    ProductSign(frac - share, t as real);
  }

  /**
    For a non-negative counter, a positive total and a non-negative width,
    the filled cells are the integer quotient `current * width / total`.
  */
  lemma CellsOfPercent(current: int64, total: int64, width: int64)
    requires 0 <= current && 0 < total && 0 <= width
    ensures Cells(Percent(current, total), width) == (current as int * width as int) / total as int
  {
    var n := current as int * width as int;
    var c, t, w := current as real, total as real, width as real;
    var share := c / t;
    var x := Percent(current, total) / 100.0 * w;
    assert x == share * w;
    assert share * t == c;
    var y := n as real / t;
    assert y * t == n as real;
    assert (x - y) * t == 0.0 by {
      assert x * t == share * t * w;
    }
    ProductSign(x - y, t);
    TruncatedQuotient(n, total as int);
  }

  /** `strings.Repeat` over glyphs: `count` copies of `glyph`. */
  function Repeat(glyph: string, count: nat): (r: seq<string>)
    ensures |r| == count
    ensures forall i | 0 <= i < count :: r[i] == glyph
  {
    if count == 0 then [] else [glyph] + Repeat(glyph, count - 1)
  }

  // ---------------------------------------------------------------------------
  // Records
  // ---------------------------------------------------------------------------

  /** The counter and its cached projection. */
  datatype State = State(percent: real, current: int64, currentGraphRate: int)

  /**
    The visual theme. `rate` holds the glyphs appended so far, one element per
    filled cell, so a glyph changed mid-run stays visible in what was drawn.
  */
  datatype Theme = Theme(rate: seq<string>, graphType: string, graphStart: string,
                         graphEnd: string, graphWidth: int64)

  const DefaultTheme: Theme := Theme([], "█", "[", "]", 50)

  const InitialState: State := State(0.0, 0, 0)

  datatype Error = InvalidTotal | CounterExceedsTotal

  /** What a call returns: no error, an error value, or a runtime panic. */
  datatype Outcome = Ok | Err(error: Error) | Panic

  /** The bar's mutable part after a call, and what the call returned. */
  datatype Step = Step(state: State, theme: Theme, outcome: Outcome)

  // ---------------------------------------------------------------------------
  // Theme merging
  // ---------------------------------------------------------------------------

  /** A theme whose drawing fields are all set. */
  predicate NonBlank(th: Theme)
  {
    th.graphType != "" && th.graphStart != "" && th.graphEnd != "" && th.graphWidth != 0
  }

  /** The theme after applying override `t`: empty strings and a zero width keep the old value. */
  function Merged(th: Theme, t: Theme): (r: Theme)
    ensures r.rate == th.rate
    ensures NonBlank(th) ==> NonBlank(r)
  {
    th.(graphType := if t.graphType != "" then t.graphType else th.graphType,
        graphWidth := if t.graphWidth != 0 then t.graphWidth else th.graphWidth,
        graphStart := if t.graphStart != "" then t.graphStart else th.graphStart,
        graphEnd := if t.graphEnd != "" then t.graphEnd else th.graphEnd)
  }

  lemma MergedBlankIsNoop(th: Theme, t: Theme)
    requires t.graphType == "" && t.graphStart == "" && t.graphEnd == "" && t.graphWidth == 0
    ensures Merged(th, t) == th
  {
  }

  lemma MergedIdempotent(th: Theme, t: Theme)
    ensures Merged(Merged(th, t), t) == Merged(th, t)
  {
  }

  lemma MergedWidthOnly(th: Theme, width: int64)
    requires width != 0
    ensures Merged(th, Theme([], "", "", "", width)) == th.(graphWidth := width)
  {
  }

  lemma MergedOverridesEachField(th: Theme, t: Theme)
    requires NonBlank(t)
    ensures Merged(th, t) == t.(rate := th.rate)
  {
  }

  // ---------------------------------------------------------------------------
  // Rendering and incrementing, as functions of the old state
  // ---------------------------------------------------------------------------

  /**
    The state update of one render: recompute the percent and the filled
    cells and, when the percent changed, append the missing glyphs. A negative
    number of glyphs to append is a panic; the percent and the cell count have
    already been overwritten by then.
  */
  function Refresh(s: State, th: Theme, total: int64): (r: Step)
    requires total != 0
    ensures r.outcome == Ok || r.outcome == Panic
    ensures r.state.current == s.current
    ensures r.theme == th.(rate := r.theme.rate)
    ensures th.rate <= r.theme.rate
    ensures r.state.percent == Percent(s.current, total)
    ensures r.state.currentGraphRate == Cells(r.state.percent, th.graphWidth)
    ensures r.outcome == Panic <==>
              r.state.percent != s.percent && r.state.currentGraphRate < s.currentGraphRate
    ensures r.state.percent == s.percent ==> r.theme.rate == th.rate
    ensures r.outcome == Panic ==> r.theme.rate == th.rate
    ensures r.outcome == Ok && r.state.percent != s.percent ==>
              && r.state.currentGraphRate >= s.currentGraphRate
              && r.theme.rate == th.rate + Repeat(th.graphType, r.state.currentGraphRate - s.currentGraphRate)
  {
    var percent := Percent(s.current, total);
    var cells := Cells(percent, th.graphWidth);
    var s' := s.(percent := percent, currentGraphRate := cells);
    if percent == s.percent then Step(s', th, Ok)
    else if cells < s.currentGraphRate then Step(s', th, Panic)
    else Step(s', th.(rate := th.rate + Repeat(th.graphType, cells - s.currentGraphRate)), Ok)
  }

  /**
    One `Add(num)`: reject a zero total untouched; otherwise add `num` to the
    counter first, then reject a counter past the total without rendering, or
    render.
  */
  function Increment(s: State, th: Theme, total: int64, num: int64): (r: Step)
    ensures r.outcome == Err(InvalidTotal) <==> total == 0
    ensures total == 0 ==> r.state == s && r.theme == th
    ensures total != 0 ==> r.state.current == WrappingAdd(s.current, num)
    ensures r.outcome == Err(CounterExceedsTotal) <==> total != 0 && r.state.current > total
    ensures r.outcome.Err? ==> r.state == s.(current := r.state.current) && r.theme == th
    ensures !r.outcome.Err? ==> r.state.current <= total && r == Refresh(s.(current := r.state.current), th, total)
  {
    if total == 0 then Step(s, th, Err(InvalidTotal))
    else
      var s' := s.(current := WrappingAdd(s.current, num));
      if s'.current > total then Step(s', th, Err(CounterExceedsTotal))
      else Refresh(s', th, total)
  }

  // ---------------------------------------------------------------------------
  // The fill invariant
  // ---------------------------------------------------------------------------

  /**
    The glyphs drawn so far match the cached cell count, which matches the
    cached percent; the cached percent never runs ahead of the counter.
  */
  predicate Synced(s: State, th: Theme, total: int64)
  {
    && 0 < total && 0 < th.graphWidth
    && 0.0 <= s.percent <= 100.0
    && s.percent <= Percent(s.current, total)
    && s.currentGraphRate == Cells(s.percent, th.graphWidth)
    && |th.rate| == s.currentGraphRate
  }

  lemma SyncedBounds(s: State, th: Theme, total: int64)
    requires Synced(s, th, total)
    ensures 0 <= |th.rate| == s.currentGraphRate <= th.graphWidth as int
  {
    CellsRange(s.percent, th.graphWidth);
  }

  lemma InitialSynced(total: int64)
    requires 0 < total
    ensures Synced(InitialState, DefaultTheme, total)
  {
    PercentRange(0, total);
  }

  /** Rendering a counter that has not gone back keeps the fill in step. */
  lemma {:induction false} RefreshKeepsSync(s: State, th: Theme, total: int64, current: int64)
    requires Synced(s, th, total)
    requires s.current <= current <= total
    ensures var r := Refresh(s.(current := current), th, total);
      r.outcome == Ok && Synced(r.state, r.theme, total) && th.rate <= r.theme.rate
  {
    var r := Refresh(s.(current := current), th, total);
    var p := Percent(current, total);
    var cells := Cells(p, th.graphWidth);
    PercentMonotone(s.current, current, total);
    PercentRange(current, total);
    CellsMonotone(s.percent, p, th.graphWidth);
    assert s.currentGraphRate <= cells;
    assert r.state == State(p, current, cells);
    if p == s.percent {
      assert r.theme == th;
    } else {
      assert r.theme.rate == th.rate + Repeat(th.graphType, cells - s.currentGraphRate);
    }
  }

  /**
    With non-negative increments that do not overflow, every `Add` keeps the
    fill in step, never panics and never shrinks the drawn glyphs; on success
    the drawn glyphs number the truncated share of the width.
  */
  lemma {:induction false} IncrementKeepsSync(s: State, th: Theme, total: int64, num: int64)
    requires Synced(s, th, total)
    requires 0 <= num && s.current as int + num as int <= MaxInt64
    ensures var r := Increment(s, th, total, num);
      && r.outcome != Panic
      && r.outcome != Err(InvalidTotal)
      && r.state.current as int == s.current as int + num as int
      && Synced(r.state, r.theme, total)
      && th.rate <= r.theme.rate
      && (r.outcome == Ok ==>
            && r.state.percent == Percent(r.state.current, total)
            && |r.theme.rate| == r.state.currentGraphRate == Cells(r.state.percent, th.graphWidth)
            && r.state.currentGraphRate == (r.state.current as int * th.graphWidth as int) / total as int
            && r.state.currentGraphRate <= th.graphWidth as int)
  {
    var r := Increment(s, th, total, num);
    var current := WrappingAdd(s.current, num);
    if current > total {
      PercentMonotone(s.current, current, total);
    } else {
      RefreshKeepsSync(s, th, total, current);
      SyncedBounds(r.state, r.theme, total);
      ProductSign(Percent(s.current, total), total as real);
      assert 0 <= s.current;
      CellsOfPercent(current, total, th.graphWidth);
    }
  }

  /** An `Add` that leaves the percent where it was draws nothing. */
  lemma UnchangedPercentDrawsNothing(s: State, th: Theme, total: int64, num: int64)
    requires Increment(s, th, total, num).state.percent == s.percent
    ensures Increment(s, th, total, num).theme == th
  {
  }

  // ---------------------------------------------------------------------------
  // Concrete runs
  // ---------------------------------------------------------------------------

  /** Total 200 on the default width 50: +50, +150, then +1 past the end. */
  lemma ScenarioTotal200()
    ensures var r1 := Increment(InitialState, DefaultTheme, 200, 50);
      && r1.outcome == Ok && r1.state.current == 50 && r1.state.percent == 25.0
      && r1.state.currentGraphRate == 12 && r1.theme.rate == Repeat("█", 12)
      && var r2 := Increment(r1.state, r1.theme, 200, 150);
      && r2.outcome == Ok && r2.state.current == 200 && r2.state.percent == 100.0
      && r2.state.currentGraphRate == 50 && r2.theme.rate == Repeat("█", 50)
      && var r3 := Increment(r2.state, r2.theme, 200, 1);
      && r3.outcome == Err(CounterExceedsTotal) && r3.state.current == 201
      && r3.state.percent == 100.0 && r3.state.currentGraphRate == 50 && r3.theme == r2.theme
  {
    var r1 := Increment(InitialState, DefaultTheme, 200, 50);
    assert Percent(50, 200) == 25.0;
    assert Truncate(12.5) == 12;
    var r2 := Increment(r1.state, r1.theme, 200, 150);
    assert Percent(200, 200) == 100.0;
    assert Truncate(50.0) == 50;
    assert r2.theme.rate == Repeat("█", 12) + Repeat("█", 38);
  }

  /** A zero total rejects the first `Add` and changes nothing. */
  lemma ScenarioZeroTotal()
    ensures Increment(InitialState, DefaultTheme, 0, 1) == Step(InitialState, DefaultTheme, Err(InvalidTotal))
  {
  }

  /** Total 100: after +50 (25 cells), a negative increment asks to repeat -5 glyphs. */
  lemma ScenarioNegativeIncrementPanics()
    ensures var r1 := Increment(InitialState, DefaultTheme, 100, 50);
      && r1.outcome == Ok && |r1.theme.rate| == 25
      && var r2 := Increment(r1.state, r1.theme, 100, -10);
      && r2.outcome == Panic && r2.state.current == 40
      && r2.state.currentGraphRate == 20 && |r2.theme.rate| == 25
  {
    assert Percent(50, 100) == 50.0;
    assert Truncate(25.0) == 25;
    assert Percent(40, 100) == 40.0;
    assert Truncate(20.0) == 20;
  }

  /** Total 100: after +50 (25 cells), shrinking the width to 10 makes the next +10 panic. */
  lemma ScenarioShrunkWidthPanics()
    ensures var r1 := Increment(InitialState, DefaultTheme, 100, 50);
      && r1.outcome == Ok
      && var th := Merged(r1.theme, Theme([], "", "", "", 10));
      && var r2 := Increment(r1.state, th, 100, 10);
      && r2.outcome == Panic && r2.state.currentGraphRate == 6 && |r2.theme.rate| == 25
  {
    assert Percent(50, 100) == 50.0;
    assert Truncate(25.0) == 25;
    assert Percent(60, 100) == 60.0;
    assert Truncate(6.0) == 6;
  }

  /**
    Total 100: after +50 (25 cells), widening to 100 and adding 0 leaves the
    percent unchanged, so no glyph is drawn although the cell count doubles.
  */
  lemma ScenarioWidenedWidthDesyncs()
    ensures var r1 := Increment(InitialState, DefaultTheme, 100, 50);
      && r1.outcome == Ok
      && var th := Merged(r1.theme, Theme([], "", "", "", 100));
      && var r2 := Increment(r1.state, th, 100, 0);
      && r2.outcome == Ok && r2.state.currentGraphRate == 50 && |r2.theme.rate| == 25
      && !Synced(r2.state, r2.theme, 100)
  {
    assert Percent(50, 100) == 50.0;
    assert Truncate(25.0) == 25;
    assert Truncate(50.0) == 50;
  }

  /** Total 100: a glyph changed after +50 is used for the cells drawn by the next +50. */
  lemma ScenarioGlyphChangeStaysVisible()
    ensures var r1 := Increment(InitialState, DefaultTheme, 100, 50);
      && var th := Merged(r1.theme, Theme([], "#", "", "", 0));
      && var r2 := Increment(r1.state, th, 100, 50);
      && r2.outcome == Ok && r2.theme.rate == Repeat("█", 25) + Repeat("#", 25)
  {
    assert Percent(50, 100) == 50.0;
    assert Truncate(25.0) == 25;
    assert Percent(100, 100) == 100.0;
    assert Truncate(50.0) == 50;
  }

  // ---------------------------------------------------------------------------
  // The bar
  // ---------------------------------------------------------------------------

  class Bar {
    var state: State
    var theme: Theme
    const total: int64

    /**
      Every drawing field of the theme is set. No operation needs it; it
      records that an override never blanks a field, so `New` establishes it
      and every method keeps it.
    */
    ghost predicate Valid()
      reads this
    {
      NonBlank(theme)
    }

    /** The fill invariant of the current state. */
    ghost predicate InSync()
      reads this
    {
      Synced(state, theme, total)
    }

    /** `New(end)`: counter and fill at zero, the default theme. */
    constructor (end: int64)
      ensures state == InitialState && theme == DefaultTheme && total == end
      ensures Valid()
      ensures 0 < end ==> InSync()
    {
      state := State(0.0, 0, 0);
      theme := Theme([], "█", "[", "]", 50);
      total := end;
      new;
      if 0 < end {
        InitialSynced(end);
      }
    }

    /** Apply a theme override field by field; the counter and the drawn glyphs stay. */
    method SetTheme(t: Theme)
      modifies this
      ensures theme == Merged(old(theme), t)
      ensures state == old(state)
      ensures old(Valid()) ==> Valid()
      ensures old(InSync()) && (t.graphWidth == 0 || t.graphWidth == old(theme.graphWidth)) ==> InSync()
    {
      if t.graphType != "" {
        theme := theme.(graphType := t.graphType);
      }
      if t.graphWidth != 0 {
        theme := theme.(graphWidth := t.graphWidth);
      }
      if t.graphStart != "" {
        theme := theme.(graphStart := t.graphStart);
      }
      if t.graphEnd != "" {
        theme := theme.(graphEnd := t.graphEnd);
      }
    }

    /** The state-updating part of a render. */
    method View() returns (outcome: Outcome)
      requires total != 0
      modifies this
      ensures Step(state, theme, outcome) == Refresh(old(state), old(theme), total)
    {
      var last := state.percent;
      state := state.(percent := Percent(state.current, total));
      var lastGraphRate := state.currentGraphRate;
      state := state.(currentGraphRate := Cells(state.percent, theme.graphWidth));
      outcome := Ok;
      if state.percent != last {
        var count := state.currentGraphRate - lastGraphRate;
        if count < 0 {
          outcome := Panic;
          return;
        }
        theme := theme.(rate := theme.rate + Repeat(theme.graphType, count));
      }
    }

    /** Add `num` to the counter and render, as one atomic step. */
    method Add(num: int64) returns (outcome: Outcome)
      modifies this
      ensures Step(state, theme, outcome) == Increment(old(state), old(theme), total, num)
      ensures old(Valid()) ==> Valid()
      ensures old(InSync()) && 0 <= num && old(state.current) as int + num as int <= MaxInt64 ==>
                InSync() && outcome != Panic && old(theme.rate) <= theme.rate
    {
      if InSync() && 0 <= num && state.current as int + num as int <= MaxInt64 {
        IncrementKeepsSync(state, theme, total, num);
      }
      if total == 0 {
        return Err(InvalidTotal);
      }
      state := state.(current := WrappingAdd(state.current, num));
      if state.current > total {
        return Err(CounterExceedsTotal);
      }
      outcome := View();
    }
  }

  /** `Default(end)` is `New(end)`. */
  method Default(end: int64) returns (b: Bar)
    ensures fresh(b)
    ensures b.state == InitialState && b.theme == DefaultTheme && b.total == end
  {
    b := new Bar(end);
  }
}

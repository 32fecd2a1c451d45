# progress-bar, modelled in Dafny

This project models the Go package `progressbar`. The package draws a single-line terminal progress bar. A `Bar` holds three things:

- a counter `current` out of a fixed `total`;
- a cached projection of that counter: the percent, and `currentGraphRate`, the number of filled cells;
- a `Theme`: the fill glyph, the two brackets, the bar width, and `rate`, the glyphs drawn so far.

`Add(num)` adds to the counter and then re-renders. `SetTheme` overrides theme fields one at a time.

The whole model is in `progressbar.dfy`, in module `ProgressBar`:

- `Bar` is a class. Its fields follow the source's records: `state` (a `State`), `theme` (a `Theme`) and the constant `total`. Its constructor and its methods `SetTheme`, `View` and `Add` follow the source statement by statement.
- Each method's postcondition ties the new state to a pure function of the old state. `SetTheme` uses `Merged`, `View` uses `Refresh` and `Add` uses `Increment`.
- The bar's properties are lemmas about those functions:
  - the fill invariant `Synced` and the conditions under which it is preserved;
  - the error protocol;
  - concrete runs, including the ones that panic.

Modelling choices:

- The percent is the exact rational `100 * (current / total)`, held as a `real`.
- The filled-cell count is Go's float-to-int conversion of `percent / 100 * width`, that is, truncation toward zero (`Truncate`).
- `current` and `total` are `int64`. Adding to the counter wraps around as Go's `int64` addition does (`WrappingAdd`).
- `rate` is a sequence with one glyph string per drawn cell. A glyph changed by `SetTheme` mid-run therefore stays visible in what was drawn before.
- `strings.Repeat` panics on a negative count. The model makes this an explicit outcome, `Panic`. By the time it happens, the percent and the cell count have already been overwritten, but `rate` has not been extended.

Two properties one would expect of a progress bar do not hold of the code, and the model follows the code:

- One would expect `0 <= current <= total` always to hold. In the code, `Add` adds to `current` before it checks the bound. A rejected `Add` therefore leaves `current` out of range, with the percent, the cell count and `rate` untouched (`Increment`, `ScenarioTotal200`).
- One would expect the number of drawn glyphs always to equal the cached cell count. In the code this is not guaranteed. `Synced` states the invariant. It is proved to be preserved by non-negative increments that do not overflow (`IncrementKeepsSync`) and by `SetTheme` calls that keep the width (`Bar.SetTheme`). A width change or a negative increment can break it:
  - `ScenarioShrunkWidthPanics` shows a shrunk width making the next `Add` panic.
  - `ScenarioWidenedWidthDesyncs` shows a widened width followed by `Add(0)` leaving too few glyphs drawn.
  - `ScenarioNegativeIncrementPanics` shows a negative increment panicking with the width unchanged.

## Model

| member | source | states |
|---|---|---|
| `ProgressBar.WrappingAdd` | progressbar.go:108-109 | the counter update is the mathematical sum whenever that fits in int64, and is congruent to it modulo 2^64 otherwise |
| `ProgressBar.Truncate` | progressbar.go:79 | the int conversion of the scaled percent is the integer next to it on the zero side: at most x and within 1 for x >= 0, at least x and within 1 for x < 0 |
| `ProgressBar.Percent` | progressbar.go:71-73 | the percent times the total is 100 times the counter, so it is the exact share `100 * current / total` |
| `ProgressBar.Cells` | progressbar.go:79 | the cell count is the truncation toward zero of `percent / 100 * width`: at most it and within 1 when it is non-negative, at least it and within 1 when it is negative |
| `ProgressBar.CellsOfPercent` | progressbar.go:72-79 | for a non-negative counter, a positive total and a non-negative width, the cell count of the counter's percent is the integer quotient `current * width / total` |
| `ProgressBar.TruncatedQuotient` | progressbar.go:79 | truncating the exact quotient of a natural by a positive integer is integer division |
| `ProgressBar.TruncateMonotone` | progressbar.go:79 | the truncating conversion never decreases as its argument grows |
| `ProgressBar.PercentMonotone` | progressbar.go:71-73 | with a positive total, a larger counter never gives a smaller percent |
| `ProgressBar.PercentRange` | progressbar.go:71-73 | with 0 <= current <= total, the percent lies in [0, 100] and is 100 exactly when current == total |
| `ProgressBar.CellsMonotone` | progressbar.go:79 | on a non-negative width, a larger percent never gives fewer filled cells |
| `ProgressBar.CellsRange` | progressbar.go:79 | for a percent in [0, 100] and a positive width, the filled cells lie in [0, width], and 100% fills the whole width |
| `ProgressBar.Repeat` | progressbar.go:81 | the appended piece has exactly `count` elements, each of them the glyph |
| `ProgressBar.Merged` | progressbar.go:37-50 | a theme override never touches the drawn glyphs `rate`, and never blanks a set glyph, bracket or width |
| `ProgressBar.MergedBlankIsNoop` | progressbar.go:37-50 | an override whose four fields are empty or zero leaves the theme unchanged |
| `ProgressBar.MergedIdempotent` | progressbar.go:37-50 | applying the same override twice equals applying it once |
| `ProgressBar.MergedWidthOnly` | progressbar.go:41-43 | an override that sets only the width changes only the width |
| `ProgressBar.MergedOverridesEachField` | progressbar.go:37-50 | an override with every field set replaces all four fields and keeps `rate` |
| `ProgressBar.Refresh` | progressbar.go:75-82 | a render keeps the counter and the theme except `rate`; afterwards the percent is 100*current/total and the cells are the truncated share of the width; it panics exactly when the percent changed and the cell count went down, and then `rate` is unchanged; an unchanged percent appends nothing; a changed percent without a panic appends exactly `currentGraphRate - lastGraphRate` (>= 0) copies of the current glyph |
| `ProgressBar.Increment` | progressbar.go:101-115 | a zero total is rejected with nothing changed; otherwise the counter becomes old+num (wrapped) first; a counter above the total is rejected, keeping the out-of-range counter and leaving percent, cells and `rate` as they were; any other call is a render whose counter is at most the total |
| `ProgressBar.SyncedBounds` | progressbar.go:78-82 | in a synced state the number of drawn glyphs equals the cached cell count and lies between 0 and the width |
| `ProgressBar.InitialSynced` | progressbar.go:52-69 | a freshly built bar with a positive total is synced |
| `ProgressBar.RefreshKeepsSync` | progressbar.go:76-82 | rendering a counter that has not gone back and is at most the total never panics, keeps the fill synced and only extends `rate` |
| `ProgressBar.IncrementKeepsSync` | progressbar.go:101-115 | from a synced state, a non-negative increment that does not overflow never panics and never meets the zero-total error; it sets current to old+num, keeps the fill synced and never shrinks `rate`; on success the percent is 100*current/total and the glyph count equals the cell count, which is the integer quotient current*width/total and at most the width (in exact arithmetic) |
| `ProgressBar.UnchangedPercentDrawsNothing` | progressbar.go:80-82 | an `Add` that leaves the percent unchanged (such as `Add(0)`) leaves the theme, including `rate`, unchanged |
| `ProgressBar.ScenarioTotal200` | progressbar.go:101-115 | with total 200 and width 50: `Add(50)` succeeds with 25% and 12 glyphs; `Add(150)` succeeds with 100% and 50 glyphs; `Add(1)` fails with the counter at 201 and nothing else changed |
| `ProgressBar.ScenarioZeroTotal` | progressbar.go:104-106 | with total 0, `Add(1)` returns the invalid-total error and changes nothing |
| `ProgressBar.ScenarioNegativeIncrementPanics` | progressbar.go:78-81 | with total 100, `Add(-10)` after `Add(50)` asks `strings.Repeat` for -5 glyphs and panics, having already set the cell count to 20 while 25 glyphs stay drawn |
| `ProgressBar.ScenarioShrunkWidthPanics` | progressbar.go:41-43 | after `Add(50)` on total 100, shrinking the width to 10 makes the next `Add(10)` panic |
| `ProgressBar.ScenarioWidenedWidthDesyncs` | progressbar.go:79-82 | after `Add(50)` on total 100, widening to 100 and calling `Add(0)` sets the cell count to 50 but draws nothing, so 25 glyphs remain and the fill is out of sync |
| `ProgressBar.ScenarioGlyphChangeStaysVisible` | progressbar.go:81 | a glyph changed after `Add(50)` is used only for the cells drawn by the next `Add(50)`: `rate` is 25 old glyphs followed by 25 new ones |
| `ProgressBar.Bar.constructor` | progressbar.go:52-69 | `New(end)` sets the counter, percent and cells to zero, the drawn glyphs to empty, the total to `end` and the theme to `█`, `[`, `]` and width 50; the result is valid, and synced when `end > 0` |
| `ProgressBar.Bar.SetTheme` | progressbar.go:37-50 | the new theme is `Merged(old theme, t)` and the counter state is unchanged; validity is preserved, and the fill invariant is preserved when the width stays the same |
| `ProgressBar.Bar.View` | progressbar.go:75-82 | the new state, theme and outcome are exactly `Refresh` of the old ones |
| `ProgressBar.Bar.Add` | progressbar.go:101-115 | the new state, theme and outcome are exactly `Increment` of the old ones; validity is preserved; from a synced bar, a non-negative increment that does not overflow keeps it synced, never panics and never shrinks `rate` |
| `ProgressBar.Default` | progressbar.go:120-122 | `Default(end)` builds a new bar in the same initial state as `New(end)` |

## Left out

- Terminal output: the `fmt.Printf` line at progressbar.go:84-95 and its format widths are a side effect with no modelled result.
- Time: `startTime`, `time.Now`, `time.Since` and the ETA `secondsLeft` (progressbar.go:66, 83, 93-94) read the wall clock and use floating point, including the division by zero when the counter is 0. The `startTime` field is not part of `Bar`.
- Concurrency: the `sync.Mutex` inside `option` and the `Lock`/`Unlock` in `Add` are not modelled. `Add` is one atomic sequential method. The unsynchronised `SetTheme` race is not modelled either.
- Floating point: the percent and the cell computation use exact rationals, not float64. The program's rounding can give one cell fewer than the model even for ordinary counters. For example, with total 100 and width 50, `Add(58)` draws 28 cells in the program (the percent rounds to 57.99999999999999), and the model gives 29.
- `Cells`: the truncation is of the exact value of `percent / 100 * width`; the program's float64 result can differ by one cell, as above.
- `CellsOfPercent`: the integer quotient `current * width / total` is the exact cell count; the program's float64 cell count can differ from it by one, as above.
- `IncrementKeepsSync`: the glyph count equals the exact cell count; the program's float64 cell count can differ from it by one, as above.
- `Bar.constructor`: the Go percent of `New(0)` is NaN, and for a negative total it is -0.0. The model stores 0.0 in both cases. The NaN is never compared, because `view` never runs when the total is 0, and -0.0 compares equal to 0.0.
- `Truncate`: a float outside the range of Go's `int` converts to an implementation-defined value. The model's cell count, and the difference of two cell counts, are unbounded integers.
- `Bar.Add`: the `int` argument is taken as 64 bits wide (`int64`), as on the usual 64-bit platforms.
- `strings.Repeat` concatenates text. The model keeps one element per glyph instead of a flat string, so glyph boundaries stay visible.

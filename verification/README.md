# Support and resistance levels of a price series

This project models the price-level detector of a small Go program. The program fetches a
cryptocurrency's daily prices and charts them. Its decision logic sits in `main.go`, in two functions:

- `calculateMultipleSupportResistance` makes one left-to-right scan over the interior indices
  `1 .. n-2` of the series. A strict local minimum is a support candidate. A strict local maximum
  is a resistance candidate. A candidate is appended to its list when the list is empty, or when it
  lies more than 2% beyond the list's last entry: below `last * (1 - 0.02)` for a support, above
  `last * (1 + 0.02)` for a resistance. The scan breaks as soon as both lists hold at least three
  levels.
- `calculateSupportResistance` returns the lowest and the highest price of a non-empty series,
  using two running accumulators.

Files:

- `levels.dfy` (module `PriceLevels`): the data model and both operations.
  - `Step` is one loop iteration.
  - `Scan` and `Detect` are the recursive specification of the whole loop, break included.
    `Detect` also reports the index at which the loop was left.
  - `CalculateMultipleSupportResistance` is the imperative loop. It is proved equal to `Detect`.
  - `CalculateSupportResistance` is the min/max loop, proved against its defining properties.
- `levels.dfy` also fixes the numeric model. Prices are `real`. The tolerance `0.02` is exact, so the
  factors are exactly `49/50` and `51/50`.
- `properties.dfy` (module `LevelProperties`): lemmas about `Detect`, for every series.
  - Each level comes from a strict interior extremum of its kind, in scan order.
  - Conversely, every extremum the scan reached is either a level or was turned down by the
    tolerance test against the level accepted before it.
  - Each level clears the previous one of its kind by the tolerance, which makes the levels strictly
    ordered when prices are non-negative.
  - The first extremum of each kind is always accepted.
  - A series without extrema, such as a flat or monotone one, yields no levels.
  - At most one level is added per index.
  - The scan breaks exactly when both lists reach three. The list that grew on the breaking step
    then holds exactly three.
  - Every level lies between the global support and the global resistance.
- `examples.dfy` (module `LevelExamples`): the detector on concrete series.

The comment on the exit test (main.go:122, "Limita a 3 níveis", "limit to 3 levels") reads like a
cap of three levels per list. The code does not cap the lists one by one: it only breaks once both
lists hold three. So one list can grow past three while the other stays short. The model follows the
code. `LevelExamples.SupportsPastThree` shows a series that yields four supports.

## Model

| member | source | states |
|---|---|---|
| `PriceLevels.Step` | main.go:110-120 | One scan iteration. A strict local minimum that passes the tolerance test against the last support is appended to the supports, and a strict local maximum that passes its test is appended to the resistances. Conversely, a list changes only in that way. At most one value is added across both lists, and a local minimum never changes the resistances (the `else if`). |
| `PriceLevels.Scan` | main.go:109-126 | The loop from index `i` on, with the lists accumulated so far. It ends at the end of the interior, or right after the step that leaves both lists with at least three levels. The loop index on leaving is at least `i` and at most `n - 1` (or `i` when no interior index remains). |
| `PriceLevels.Detect` | main.go:101-129 | The whole function: the scan from index 1 with two empty lists. `stoppedAt`, the loop index when the loop is left, is 1 when `n < 3` and lies between 1 and `n - 1` otherwise. A series shorter than 3 yields two empty lists. |
| `PriceLevels.CalculateMultipleSupportResistance` | main.go:101-129 | The loop with its `break` returns exactly the lists of the recursive specification `Detect`. A series shorter than 3 yields two empty lists. |
| `PriceLevels.CalculateSupportResistance` | main.go:45-58 | Requires a non-empty series. Returns a support and a resistance that both occur in the series, with support ≤ every price ≤ resistance, hence support ≤ resistance. |
| `LevelProperties.StepOf` | main.go:110-118 | For either kind, one step appends the current price to that kind's list exactly when the index is an extremum of that kind and passes the acceptance test; otherwise the list is unchanged. The list before the step is a prefix of the list after it. |
| `LevelProperties.ScanExtends` | main.go:113-118 | Lists only grow by appending: the lists at any point of the scan are prefixes of the final ones. |
| `LevelProperties.LevelSites` | main.go:110-118 | A corollary of `LevelsComplete`. Gives, for each support (resistance), the index of a strict interior local minimum (maximum) whose price it equals. The indices strictly increase, so levels keep scan order. No index lies past the index where the scan stopped. |
| `LevelProperties.LevelsComplete` | main.go:109-118 | Which extrema become levels. Each support (resistance) is the price of a strict interior local minimum (maximum), the sites increase and none lies past the stopping index. Each level clears the one before it by the tolerance. No strict local minimum (maximum) up to the stopping index comes before the first support (resistance). Every one that comes after level `j` and before level `j + 1` (or after the last level) fails the tolerance test against level `j`. Together these clauses fix which reached extrema are accepted. |
| `LevelProperties.LevelsChained` | main.go:112-117 | Consecutive supports satisfy `s[j+1] < s[j] * (1 - 0.02)`. Consecutive resistances satisfy `r[j+1] > r[j] * (1 + 0.02)`. |
| `LevelProperties.ChainedNonNegativeIsOrdered` | main.go:112-117 | A tolerance chain of non-negative values is strictly decreasing (supports) or strictly increasing (resistances), pairwise and not only between neighbours. |
| `LevelProperties.NonNegativeSeriesOrdersLevels` | main.go:109-118 | For a series of non-negative prices, the detected supports strictly decrease and the resistances strictly increase. |
| `LevelProperties.ScanFirst` | main.go:109-118 | From any point where a kind's list is still empty, the next extremum of that kind becomes that list's first entry. |
| `LevelProperties.FirstExtremumLeads` | main.go:109-117 | The first strict interior local minimum (maximum) of the series is always the first support (resistance). The `len == 0` disjunct accepts it, and the scan cannot stop before reaching it. |
| `LevelProperties.ScanNoExtremum` | main.go:110-118 | A list that is empty stays empty when no later index is an extremum of its kind. |
| `LevelProperties.NoExtremumNoLevels` | main.go:110-118 | A series with no strict interior extremum of a kind yields no level of that kind. |
| `LevelProperties.MonotoneSeriesHasNoLevels` | main.go:110-115 | A non-decreasing or non-increasing series, a flat one included, yields both lists empty. |
| `LevelProperties.LevelCountBound` | main.go:109-120 | Each index adds at most one value across both lists. Together they hold at most `n - 2` levels, and none when `n < 3`. |
| `LevelProperties.EarlyExit` | main.go:123-125 | The loop breaks early exactly when both lists hold at least three levels. The list that grew on the breaking step then holds exactly three. Without a break, the loop index ends at `n - 1`, so every interior index was scanned. |
| `LevelProperties.LevelsWithinRange` | main.go:45-58 | Every detected level lies between any lower and upper bound of the prices. In particular, it lies between the support and resistance that the min/max operation returns. |
| `LevelExamples.SevenPointSeries` | main.go:101-129 | `[10, 8, 12, 7, 15, 6, 20]` yields supports `[8, 7, 6]` and resistances `[12, 15]`, with no break. |
| `LevelExamples.SupportsPastThree` | main.go:123-125 | `[10, 8, 9, 7, 8, 6, 7, 5, 6]` yields four supports and one resistance. The break never fires, because it needs both lists at three. |
| `LevelExamples.BreaksBeforeTheEnd` | main.go:123-125 | `[10, 20, 9, 30, 8, 40, 7, 50, 6, 60]` breaks at index 6 with three levels of each kind. The qualifying extrema at indices 7 and 8 are not scanned. |
| `LevelExamples.FlatSeries` | main.go:110-115 | `[5, 5, 5, 5, 5]` yields no levels. |

## Left out

- `getUserSelection` (main.go:17-22) reads standard input. It is pure I/O.
- `fetchHistoricalData` (main.go:24-43) is an HTTP call and a JSON decoding through an HTTP client
  library. It is network plumbing; the model takes the price series as a parameter instead.
- `plotSupportResistance` (main.go:59-99) draws the chart and writes a PNG through a plotting library.
  It holds no decision logic.
- `main` (main.go:131-149) is wiring, printing and fatal logging.
- Floating point: prices are `real`, not `float64`. The rounding of `1 - 0.02` and `1 + 0.02` and of
  the products is not modelled. Neither are NaN prices, whose comparisons are all false, nor overflow to
  infinity in the products.
- `CalculateSupportResistance`: an empty series is excluded by its precondition. The Go code indexes
  `prices[0]` and would panic; it has no error path to model.
- Go slices are modelled as immutable sequences. Neither operation writes to its input, and the
  result lists are freshly built, so no aliasing is lost.

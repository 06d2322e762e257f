# Support and resistance levels of the stock dashboard

The dashboard in `app.py` downloads a price history, draws a candlestick chart
with a dashed support line and a dashed resistance line, and asks a language
model for a Buy/Sell/Hold recommendation. The only self-contained logic in it
is the computation of those two lines (app.py:53-64). That computation is what
this project models and proves things about. It also models the "recent
closing prices" slice of the prompt (app.py:102).

The computation scans the closing prices once, visiting every interior index
1 .. n-2. A close strictly below both neighbours is a local minimum (a trough)
and is appended to `support`. Otherwise, a close strictly above both neighbours
is a local maximum (a peak) and is appended to `resistance`. The support level
is the lowest trough, the resistance level the highest peak. Each level is
undefined (Python's `None`) when its list is empty.

Layout:

- `wrappers.dfy`, module `Wrappers`: the `Option` type standing for a level that may be `None`.
- `turning_points.dfy`, module `TurningPoints`: `IsLocalMin`, `IsLocalMax`, the reference definition `Extrema(kind, closes)` of the two lists (and the ghost `ExtremaIndices` of the indices they come from), and the lemmas about them.
- `levels.dfy`, module `Levels`: the scan as a `while` loop (`SupportResistance`), Python's `min`/`max` (`Lowest`, `Highest`), the two level reductions, and lemmas about the levels.
- `prompt.dfy`, module `Prompt`: the last-five-closes slice.

Closes are modelled as `seq<real>`. The scan only compares closes and picks a
minimum or maximum, so exact reals stand in for the rounded floats without
arithmetic.

`app.py` does not guarantee support <= resistance when the series has
plateaus. `Levels.PlateauInvertsLevels` shows 5, 1, 3, 3, 0.5, 0.5, 0.8, 0.6,
whose support 1 lies above its resistance 0.8.
`Levels.SupportBelowResistance` proves the strict ordering when no two
adjacent closes are equal. `Levels.WorkedExample` lists all three peaks of
1, 3, 2, 5, 1, 4, 0, including close 3 at index 1.

## Model

| member | source | states |
|---|---|---|
| `Levels.SupportResistance` | app.py:53-64 | the loop over indices 1 .. n-2 builds `support` and `resistance` equal to the reference lists of troughs and peaks; each level is `None` exactly when its list is empty, and otherwise is an element of its list that is at most (support) or at least (resistance) every element |
| `Levels.Lowest` | app.py:63 | `min` of a non-empty list is one of its elements and is at most every element |
| `Levels.Highest` | app.py:64 | `max` of a non-empty list is one of its elements and is at least every element |
| `Levels.ConstantSupport` | app.py:63 | the support level is `None` iff `support` is empty; otherwise it is a member of `support` that no member undercuts |
| `Levels.ConstantResistance` | app.py:64 | the resistance level is `None` iff `resistance` is empty; otherwise it is a member of `resistance` that no member exceeds |
| `TurningPoints.TraceBelow` | app.py:53-60 | after scanning indices below k, the list holds, in increasing index order, the close of every turning point below k and of nothing else |
| `TurningPoints.ClassifiedExactly` | app.py:57-60 | an index is listed as a trough (peak) exactly when its close is strictly below (above) both neighbours |
| `TurningPoints.InIndexOrder` | app.py:53-60 | the j-th entry of each list is the close at the j-th listed index, and the listed indices strictly increase, so the lists keep the order of the series |
| `TurningPoints.InteriorOnly` | app.py:56 | every listed index lies in 1 .. n-2: the first and last closes are never classified |
| `TurningPoints.PlateauIgnored` | app.py:57-60 | a close equal to either neighbour is listed as neither kind |
| `TurningPoints.KindsDisjoint` | app.py:57-60 | no index is in both lists, and an index is listed as a peak exactly when it is a local maximum and not a local minimum, as the `elif` reads |
| `TurningPoints.CountBelow` | app.py:53-60 | after scanning indices below k the two lists together hold at most k-1 entries |
| `TurningPoints.CountBound` | app.py:53-60 | the two lists together hold at most n-2 entries (none when n < 2) |
| `TurningPoints.NoneBelow` | app.py:56-60 | if no index below k is a turning point, nothing has been listed |
| `TurningPoints.NoTurningPoints` | app.py:56-60 | with fewer than three closes, or a strictly increasing or strictly decreasing series, both lists are empty |
| `Levels.NoLevels` | app.py:56-64 | with fewer than three closes, or a strictly monotonic series, both levels are `None` |
| `Levels.WorkedExample` | app.py:53-64 | 1, 3, 2, 5, 1, 4, 0 has troughs 2, 1 and peaks 3, 5, 4, and the levels computed from them are support 1 and resistance 5 |
| `Levels.PlateauInvertsLevels` | app.py:53-64 | 5, 1, 3, 3, 0.5, 0.5, 0.8, 0.6 has the single trough 1 and the single peak 0.8, and the resistance level computed from them lies strictly below the support level |
| `Levels.ClimbRight` | app.py:59-60 | without plateaus, a rise after index i reaches a peak higher than close i at or before any later peak |
| `Levels.ClimbLeft` | app.py:59-60 | without plateaus, a fall into index i comes from a peak higher than close i at or after any earlier peak |
| `Levels.SupportBelowResistance` | app.py:53-64 | without plateaus, when both lists are non-empty the support level is strictly below the resistance level |
| `Prompt.RecentCloses` | app.py:102 | the prompt's recent closes are the last min(5, n) closes, in their original order: the earlier closes followed by them give back the series |

The rows are stated against the specification functions of `TurningPoints`:
`IsLocalMin` (app.py:57, a close strictly below both neighbours),
`IsLocalMax` (app.py:59, a close strictly above both neighbours) and
`Extrema(kind, closes)` (app.py:53-60, the closes of every interior local
minimum, for `Trough`, or local maximum, for `Peak`, in index order).

## Left out

- Data download, timezone conversion and `round(4)` (app.py:33-45): network I/O and float rounding. The model takes the rounded closes as its input.
- NaN closes: a missing price compares false both ways in Python, so it would be classified as neither kind. Reals have no NaN.
- The candlestick chart and the two `add_hline` calls (app.py:66-84): rendering.
- `describe()`, the standard deviation and the mean volume (app.py:88-91): floating-point statistics.
- The prompt text (app.py:93-113) beyond the recent-closes slice: string interpolation of float representations.
- The Azure OpenAI client and call (app.py:13-19, 116-131): a remote service and its credentials.
- Streamlit page setup, widgets and warnings (app.py:21-30, 47, 133-134).
- The chart title's lookup of the instrument's short name (app.py:49): a network call through yfinance that runs before the scan.
- Building the `plot_df` table from the downloaded data (app.py:51): a pandas reshaping; the model takes its `Close` column as the sequence of closes.
- Levels.Lowest: Python's `min` returns the first of several equal minima; the model returns the value only, since equal reals cannot be told apart.

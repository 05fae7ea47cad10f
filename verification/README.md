# Earthquake map: depth colors and legend

A Dafny model of the logic in the earthquake map script
`Leaflet-Part-1/static/js/logic.js`. The script draws one circle marker per
earthquake. The marker's fill color comes from the event's depth through
`getColor`, and a legend lists the depth intervals with their colors.

The model has three modules:

- `DepthColor` (`depth_color.dfy`) holds `getColor` as the if/else-if chain
  it is. Next to it is an independent reference definition of the bucket: a
  linear search for the first upper bound strictly above the depth
  (`FirstAbove`). The lemmas tie the two together. A depth is a `real`.
- `Decimal` (`decimal.dfy`) is JavaScript's conversion of an integer of
  magnitude at most 2^53 to text,
  which the legend uses when it concatenates a limit to a string. A parser is
  its partner, and a round-trip lemma shows the conversion loses nothing.
- `Legend` (`legend.dfy`) holds the fixed `limits` table, `colors =
  limits.map(getColor)`, and the legend loop. The loop is a method that builds
  one (color, caption) entry per limit. Each caption is written from an
  `Interval` value, and a parser reads the interval back. With that, the model
  proves that every depth a legend line names is drawn in that line's color.

The legend tests `limits[i + 1]` for JavaScript truthiness, not for "is there
a next limit". The model keeps this: `undefined` and `0` are both falsy
(`JsValue`, `Truthy`). For the real limits `[-10, 10, 30, 50, 70, 90]`, no
upper limit is 0, so only the last caption is open-ended ("90+"). The first
caption is "-10–10". `LabelIsIntervalIff` states the general rule: a 0 among
the upper limits would also end that caption with "+".

Two points where the legend could be read differently are modelled as the
code has them. First, a legend could pair each swatch with the `colors`
entry at the same index. The loop instead calls `getColor(limits[i])`
directly. `LegendLineParts` shows the two agree for any limits, and
`LegendColorIsBucketColor` shows that swatch i of the real legend is bucket
i's color. Second, a legend could write a range caption whenever a next limit
exists. The loop instead tests that limit for truthiness. `LimitLabels` shows
that, for the fixed limits, both readings give the same captions.

The captions do not cover every depth a marker can have. getColor gives the
first color to every depth below 10, but the first caption reads "-10–10".
A depth below -10, such as -20, gets a swatch color that no caption names
(`CaptionIffBucket`, `UncaptionedShallowDepth`). Every other bucket matches its
caption exactly.

## Model

| member | source | states |
|---|---|---|
| `DepthColor.GetColor` | Leaflet-Part-1/static/js/logic.js:40-54 | getColor is total and always returns one of the six colors of the palette |
| `DepthColor.FirstAbove` | Leaflet-Part-1/static/js/logic.js:41-53 | the bucket search gives the first bound strictly above the depth: every earlier bound is at or below it, and the bound found (if any) is strictly above it |
| `DepthColor.Bucket` | Leaflet-Part-1/static/js/logic.js:41-53 | every depth falls into exactly one of the six buckets |
| `DepthColor.GetColorIsBucketColor` | Leaflet-Part-1/static/js/logic.js:41-53 | the color of a depth is the palette color of the bucket the ordered search finds |
| `DepthColor.BucketInterval` | Leaflet-Part-1/static/js/logic.js:41-52 | a depth is in bucket i if and only if it is at or above bucket i's lower bound and strictly below its upper bound; a bound itself belongs to the higher bucket |
| `DepthColor.UpperBoundsAscending` | Leaflet-Part-1/static/js/logic.js:41-49 | the bounds getColor tests, 10, 30, 50, 70 and 90, ascend strictly |
| `DepthColor.FirstAboveMonotone` | Leaflet-Part-1/static/js/logic.js:41-53 | for any list of bounds, a deeper depth never gets an earlier bucket |
| `DepthColor.BucketMonotone` | Leaflet-Part-1/static/js/logic.js:41-53 | if d1 <= d2 then bucket(d1) <= bucket(d2) |
| `DepthColor.PaletteDistinct` | Leaflet-Part-1/static/js/logic.js:41-53 | there are six colors and no two are equal |
| `DepthColor.SameColorIffSameBucket` | Leaflet-Part-1/static/js/logic.js:41-53 | two depths get the same color if and only if they are in the same bucket |
| `DepthColor.ShallowAndDeep` | Leaflet-Part-1/static/js/logic.js:41-52 | every depth below 10, negative ones included, is "#98EE00"; every depth of 90 or more is "#EA2C2C" |
| `DepthColor.BoundaryDepths` | Leaflet-Part-1/static/js/logic.js:41-52 | 9.999 is "#98EE00"; 10, 30, 50, 70 and 90 each get the color of the bucket above them |
| `Decimal.NatToDecimal` | Leaflet-Part-1/static/js/logic.js:106 | a natural number is written as at least one decimal digit, with a leading '0' only for zero |
| `Decimal.NatToDecimalSingleDigit` | Leaflet-Part-1/static/js/logic.js:106 | a natural number is written with a single digit if and only if it is below 10 |
| `Decimal.IntToDecimal` | Leaflet-Part-1/static/js/logic.js:106 | an integer is written with a leading '-' exactly when it is negative, followed only by digits, with no leading zero unless it is 0 |
| `Decimal.NatToDecimalRoundTrip` | Leaflet-Part-1/static/js/logic.js:106 | reading the digits of a natural number back gives that number |
| `Decimal.IntToDecimalRoundTrip` | Leaflet-Part-1/static/js/logic.js:106 | parsing the text of any integer gives that integer back |
| `Decimal.SmallIntegers` | Leaflet-Part-1/static/js/logic.js:21 | the limits -10, 10 and 90 are written "-10", "10" and "90" |
| `Legend.Colors` | Leaflet-Part-1/static/js/logic.js:25 | limits.map(getColor) has one color per limit, and each is the palette color of that limit's bucket |
| `Legend.FormatIntervalRoundTrip` | Leaflet-Part-1/static/js/logic.js:106 | a caption "lo–hi" or "lo+" reads back as exactly the interval it was written from |
| `Legend.LegendPrefixAt` | Leaflet-Part-1/static/js/logic.js:103-107 | after n rounds of the loop, entry k (k < n) pairs getColor(limits[k]) with caption k; later rounds leave earlier entries alone |
| `Legend.LegendLineParts` | Leaflet-Part-1/static/js/logic.js:105-106 | the swatch the loop writes for limit i is colors[i], and caption i is limits[i] followed by "–" and limits[i+1] when limits[i+1] is truthy, otherwise by "+" |
| `Legend.BuildLegend` | Leaflet-Part-1/static/js/logic.js:103-107 | the loop emits exactly one entry per limit, in limit order; entry i pairs getColor(limits[i]) with caption i |
| `Legend.LimitsMatchClassifier` | Leaflet-Part-1/static/js/logic.js:21 | the six limits ascend strictly, and limits 1 to 5 are the bounds getColor tests |
| `Legend.LegendColorIsBucketColor` | Leaflet-Part-1/static/js/logic.js:105 | the swatch color getColor(limits[i]) of legend entry i is the color of bucket i |
| `Legend.ColorsArePalette` | Leaflet-Part-1/static/js/logic.js:25 | colors is the six bucket colors in bucket order, so all six appear once each |
| `Legend.LimitLabels` | Leaflet-Part-1/static/js/logic.js:106 | with the fixed limits, entries 0 to 4 are labelled with the interval [limits[i], limits[i+1]) and entry 5 is open-ended |
| `Legend.FirstAndLastLabel` | Leaflet-Part-1/static/js/logic.js:106 | the first caption is "-10–10" and the last is "90+" |
| `Legend.LabelIsIntervalIff` | Leaflet-Part-1/static/js/logic.js:106 | for any limits, caption i is a readable caption, and it names a two-sided interval if and only if a next limit exists and is not 0 |
| `Legend.CoveredDepthInBucket` | Leaflet-Part-1/static/js/logic.js:105-106 | a depth inside the interval that legend caption i names lies in bucket i |
| `Legend.CaptionIffBucket` | Leaflet-Part-1/static/js/logic.js:105-106 | a depth lies inside caption i's interval if and only if it is in bucket i and, for the first entry, at least -10 |
| `Legend.UncaptionedShallowDepth` | Leaflet-Part-1/static/js/logic.js:41-42 | a depth of -20 is drawn in the first swatch's color, yet no legend caption covers it |
| `Legend.SwatchMatchesMarker` | Leaflet-Part-1/static/js/logic.js:72 | every depth inside the interval of legend entry i is drawn with entry i's swatch color, and a depth gets that color if and only if it is in bucket i |

## Left out

- NaN depths: JavaScript's NaN fails every `<` test and lands in the last
  bucket. Dafny's `real` has no NaN, so the model assumes every depth is a
  number.
- `getRadius` and `radiusScale` (logic.js:57-63) are left out. They call the
  d3 library's linear scale, and its behaviour is not visible here. Its domain
  [-1, 10] and range [5, 30] are fixed literals.
- `styleInfo` (logic.js:32-37) and the marker options (logic.js:69-77) are
  left out: they only pass `getColor`'s result to the map library. The
  marker's color is stated through `SwatchMatchesMarker`.
- Left out as calls into the map library: tile layer and map creation,
  `addTo`, the GeoJSON layer and popups (logic.js:1-13, 66-87, 89-96, 114).
- The feed download `d3.json` (logic.js:15-18) is left out because it is
  network I/O.
- The legend's HTML markup (`<ul>`, `<li>`, the swatch `<div>`, the `<br>`
  after each range caption) is left out. The model keeps the (color, caption)
  pairs. The `&ndash;` entity is modelled as the character U+2013.
- Number-to-text conversion covers integers only: every limit is an integer
  literal. JavaScript's forms for fractions and exponents are not modelled.
- Limits are unbounded `int`, while JavaScript numbers are doubles. Captions
  match JavaScript's text only for limits of magnitude at most 2^53. Above
  that, JavaScript rounds the limit to a double and writes the shortest digits
  for it, padded with zeros. `BuildLegend` and `LabelIsIntervalIff` are stated
  for any integer limits, so for such large limits they describe exact digits,
  not what the page shows. The real limits -10 to 90 are far below this bound.

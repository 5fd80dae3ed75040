# Mumbai ward map: explorer and choropleth

This project models the interactive ward map of the covid19mumbai dashboard. The map
has two parts.

- **The map explorer** (`src/components/mapexplorer.js`) takes the ward records loaded
  by the home page.
  - It aggregates the records into a per-ward statistic: the sum of three case counts
    read with JavaScript's `parseInt`, with the `Total` row skipped.
  - It keeps the region shown in the side panel, the hovered region, the selected region
    and the current map.
  - It forwards every hover to the page through `onMapHighlightChange`.
- **The choropleth** (`src/components/choropleth.js`) draws one path per ward of the
  topology.
  - Each path is filled by one of four value bands.
  - Hovering a path hovers its ward and, when the ward has a record, selects it; leaving a path clears the selection.
  - A touch arms or disarms a "once touched" flag that a click consults.
  - Whenever the selection or the render changes, every path's `map-hover` class is
    set or cleared, and each matching path is moved to the end of the draw order.

The Dafny modules follow the two files:

| module | file | contents |
|---|---|---|
| `Wrappers` | `wrappers.dfy` | `Option`, with `None` as JavaScript's `undefined` |
| `JsSemantics` | `js_semantics.dfy` | `parseInt` without a radix, following section 19.2.5 of ECMA-262; the decimal form of an integer; the coercion of `undefined` to a property key |
| `MapExplorer` | `mapexplorer.dfy` | ward records, the aggregation (a specification fold and the looping method), `getRegionFromState`, the ward lookup, the `Explorer` class with the component's state |
| `Choropleth` | `choropleth.dfy` | fill bands, the touch flag, the highlight as a specification function and as an in-place walk over an `array` of paths, the `ChoroplethMap` class with the event handlers and effects |

A ward record is a map from field names to strings. A missing field reads as
`undefined`. A selection is either nothing (the initial `{}` or the `null` a mouse leave
writes) or a region name, which may itself be `undefined`. The drawn paths are an
`array<PathNode>` in draw order. `ChoroplethMap.Valid()` is the invariant that the paths
always show the highlight of the explorer's current selection.

Three behaviours of the code are worth stating plainly:
- A finished topology load is applied whenever the component is still mounted. The code
  has no check that would discard an older, superseded load.
- A value of exactly 0, and any negative value, gets the lowest fill band. The band just
  above it is the open interval (0, 0.01).
- The map switch does nothing, because its body is commented out.

## Model

| member | source | states |
|---|---|---|
| `JsSemantics.JsString` | src/components/mapexplorer.js:60 | `String(v)` of a field value: a string is itself and `undefined` is "undefined", so a record without `Ward` is keyed "undefined" (used by `WardStatisticKeys`) |
| `JsSemantics.TrimStartRemovesWhiteSpace` | src/components/mapexplorer.js:54-59 | `parseInt` first strips exactly the leading white space: what `TrimStart` leaves is a suffix of the input, everything removed is white space, and what is left does not start with white space |
| `JsSemantics.ParseInt` | src/components/mapexplorer.js:54-59 | `parseInt` without a radix (white space, sign, optional hex prefix, longest digit prefix, NaN as `None`); characterised by `SplitSignedInput`, `ParseIntPeel`, `ParseIntOfDigits`, `ParseIntIsNaN` and `ParseIntOfDecimal` |
| `JsSemantics.ParseSigned` | src/components/mapexplorer.js:54-59 | an optional leading `-` or `+`, then the magnitude, negated after `-`; its meaning is stated by `ParseIntPeel` |
| `JsSemantics.ParseMagnitude` | src/components/mapexplorer.js:54-59 | radix 16 after `0x`/`0X`, radix 10 otherwise, value of the longest digit prefix, NaN when that prefix is empty; its meaning is stated by `ParseIntOfDigits` and `ParseIntIsNaN` |
| `JsSemantics.SplitSignedInput` | src/components/mapexplorer.js:54-59 | every string is leading white space, an optional sign, and a rest that starts with neither white space nor (when unsigned) a sign |
| `JsSemantics.ParseIntPeel` | src/components/mapexplorer.js:54-59 | past the white space and the sign, `parseInt` is the unsigned parse of the rest, negated after `-` |
| `JsSemantics.ParseIntOfDigits` | src/components/mapexplorer.js:54-59 | prefix law: after white space and an optional sign, a non-empty run of decimal digits followed by a non-digit (and not forming `0x`) parses to the digits' value, with the sign applied, whatever follows |
| `JsSemantics.ParseIntIsNaN` | src/components/mapexplorer.js:54-59 | `parseInt` is NaN if and only if no digit follows the white space and the sign: no decimal digit first, or no hexadecimal digit right after `0x`/`0X` |
| `JsSemantics.ParseIntOfDecimal` | src/components/mapexplorer.js:54-59 | `parseInt` reads back any integer written in decimal. Leading white space is allowed. A trailing non-digit suffix is allowed too, except an `x` after a lone `0`, which would start a hex literal |
| `JsSemantics.ParseIntSkipsLeadingWhiteSpace` | src/components/mapexplorer.js:54-59 | leading white space never changes what `parseInt` returns |
| `JsSemantics.ParseIntWithoutDigits` | src/components/mapexplorer.js:54-59 | a string without any decimal digit parses to NaN, so the count falls back to 0 (a special case of `ParseIntIsNaN`) |
| `MapExplorer.CaseCount` | src/components/mapexplorer.js:54-59 | `isNaN(parseInt(x)) ? 0 : parseInt(x)` on one field; characterised by `MissingFieldIsNaN`, `CaseCountOfDecimal` and `CaseCountWithoutNumber` |
| `MapExplorer.MissingFieldIsNaN` | src/components/mapexplorer.js:54-59 | a missing field, read as `undefined`, parses to NaN |
| `MapExplorer.CaseCountOfDecimal` | src/components/mapexplorer.js:54-59 | a field holding a decimal integer, possibly with white space before it and other text after it, counts as that integer |
| `MapExplorer.CaseCountWithoutNumber` | src/components/mapexplorer.js:54-59 | a field in which no digit follows the white space and the sign (such as "N/A 12", "-" or "+ 3") counts 0 |
| `MapExplorer.WardSum` | src/components/mapexplorer.js:54-60 | the entry for a ward is `a+b+c`, the three case counts added; `WardStatisticLastWins` states which record's sum is kept |
| `MapExplorer.IsTotalRow` | src/components/mapexplorer.js:51 | `state.Ward === 'Total'`; `WardStatisticExcludesTotal` states that such a row leaves no entry |
| `MapExplorer.WardKey` | src/components/mapexplorer.js:60 | the property key `acc[state.Ward]` writes, `undefined` coerced to "undefined"; `WardStatisticKeys` states the keys it yields |
| `MapExplorer.AssignCount` | src/components/mapexplorer.js:60 | `acc[key] = n` on a plain object: an own entry for every key except `__proto__`, whose inherited setter ignores a number; `WardStatisticKeys` and `WardStatisticExcludesTotal` state the resulting keys |
| `MapExplorer.WardStatistic` | src/components/mapexplorer.js:50-62 | the reduce over the records as a fold from the first to the last; characterised by `WardStatisticKeys`, `WardStatisticExcludesTotal` and `WardStatisticLastWins`, and computed by `AggregateWards` |
| `MapExplorer.AggregateWards` | src/components/mapexplorer.js:47-64 | the reduce builds exactly the fold `WardStatistic`; its keys are exactly the wards of the records that are not the `Total` row and not keyed `__proto__`; neither `Total` nor `__proto__` is ever a key; the statistic object stays `{total: 0, maxConfirmed: 0}` |
| `MapExplorer.WardStatisticKeys` | src/components/mapexplorer.js:50-62 | the keys of the statistic are exactly the (coerced) `Ward` values of the records that are not the `Total` row, `__proto__` excepted |
| `MapExplorer.WardStatisticExcludesTotal` | src/components/mapexplorer.js:51-53 | the `Total` row never gets an entry, and neither does `__proto__` |
| `MapExplorer.WardStatisticLastWins` | src/components/mapexplorer.js:60 | when a ward appears several times, its entry is the case sum of its last non-`Total` record |
| `MapExplorer.GetRegionFromState` | src/components/mapexplorer.js:23-28 | `undefined` stays `undefined`; otherwise every field except `name` is copied; a truthy `name` is kept, and a falsy one is replaced by `Ward` (absent if `Ward` is absent) |
| `MapExplorer.GetRegionFromStateIdempotent` | src/components/mapexplorer.js:23-28 | normalising a region twice gives the same result as normalising it once |
| `MapExplorer.FirstWardIndex` | src/components/mapexplorer.js:69 | `find` stops at the first record whose `Ward` is strictly equal to the name, or runs past the end |
| `MapExplorer.FindWard` | src/components/mapexplorer.js:69 | `find` gives `undefined` exactly when no record has that ward; otherwise it gives the record of `states` at the first index whose `Ward` is strictly equal to the name, so with duplicate wards the panel shows the first such record |
| `MapExplorer.Explorer.constructor` | src/components/mapexplorer.js:8-45 | nothing is selected; the panel and the hovered region are both the normalised first record; the map is the registry's (`MapRegistry`) Mumbai entry |
| `MapExplorer.Explorer.SetHoveredRegion` | src/components/mapexplorer.js:66-76 | hovered and panel regions both become the normalised first record of the ward, or `undefined`; the same value is appended to the highlight notifications; the call ends in the page handler's exception exactly when no record has the ward; selection and map are unchanged |
| `MapExplorer.Explorer.SetSelectedRegion` | src/components/mapexplorer.js:40 | the selection becomes the given value and nothing else changes |
| `MapExplorer.Explorer.SwitchMapToState` | src/components/mapexplorer.js:103-124 | switching maps changes nothing |
| `MapExplorer.Explorer.MapData` | src/components/mapexplorer.js:47-64 | the memoised value is the zero statistic and the fold over the explorer's records |
| `MapExplorer.HoverShowsWard` | src/components/mapexplorer.js:66-72 | hovering a ward that has a record shows a region carrying that ward |
| `Choropleth.FillBand` | src/components/choropleth.js:56-57 | the four colours correspond one-to-one to the intervals [0.02, ∞), [0.01, 0.02), (0, 0.01) and (-∞, 0], and these intervals cover every value |
| `Choropleth.BandColoursDistinct` | src/components/choropleth.js:56-57 | the four fill colours are pairwise different |
| `Choropleth.RegionValue` | src/components/choropleth.js:55 | `parseFloat(mapData[name])`, or 0.00 when that is NaN: the entry of the region's coerced name, or 0 when there is none or the key is `__proto__`; characterised by `AbsentRegionIsLowestBand` and `IntegerSumsUseOuterBands` |
| `Choropleth.RegionBand` | src/components/choropleth.js:54-58 | the fill callback: the band `FillBand` assigns to the region's value `RegionValue`; a region with no entry or keyed `__proto__` gets the lowest band (`AbsentRegionIsLowestBand`), and with integer sums the top band exactly when the sum is positive (`IntegerSumsUseOuterBands`) |
| `Choropleth.AbsentRegionIsLowestBand` | src/components/choropleth.js:55 | a region without an entry in the statistic, or named `__proto__`, reads as 0 and gets the lowest band |
| `Choropleth.IntegerSumsUseOuterBands` | src/components/choropleth.js:55-57 | with the explorer's integer sums, a region gets the top band exactly when its sum is positive, and the lowest band otherwise; the two middle bands never occur |
| `Choropleth.Matches` | src/components/choropleth.js:162 | `name === d.properties.st_nm`: only a selected name matches, and it matches the features of exactly that name (`undefined` included); `HighlightTagsExactlyMatches` states its use |
| `Choropleth.DrawRegions` | src/components/choropleth.js:46-59 | one path per feature, in feature order, filled by the feature's band and not tagged |
| `Choropleth.Touchstart` | src/components/choropleth.js:69-72 | touching the armed region disarms, touching any other arms it; characterised by `TouchTwice` and `TouchArmsOnlyTouched` |
| `Choropleth.Mouseleave` | src/components/choropleth.js:67 | leaving the armed region disarms, leaving any other keeps the flag; characterised by `LeaveDisarms` |
| `Choropleth.TouchTwice` | src/components/choropleth.js:69-72 | two touches on the same region return to the starting state when the flag was idle or on that region; when it was on another region they end idle |
| `Choropleth.TouchArmsOnlyTouched` | src/components/choropleth.js:69-72 | a touch disarms exactly when the touched region was armed; otherwise it arms the touched region |
| `Choropleth.LeaveDisarms` | src/components/choropleth.js:67 | after leaving a region, the flag is never on that region, and a leave never arms a region; the flag changes exactly when it was on the region left, so a flag on any other region is kept |
| `Choropleth.Kept` | src/components/choropleth.js:158-168 | the paths the walk leaves in place: the non-matching ones, in order, class cleared; with `Raised` characterised by `KeptRaisedLength`, `HighlightIsPermutation` and `HighlightTagsExactlyMatches` |
| `Choropleth.Raised` | src/components/choropleth.js:158-168 | the paths the walk moves to the end: the matching ones, in order, class set |
| `Choropleth.Highlighted` | src/components/choropleth.js:158-168 | the draw order after `highlightRegionInMap`: `Kept` then `Raised`; computed in place by `HighlightPaths` and characterised by the `Highlight…` lemmas |
| `Choropleth.HighlightTagsExactlyMatches` | src/components/choropleth.js:160-166 | after the highlight, a path carries `map-hover` exactly when its name strictly equals the selection |
| `Choropleth.HighlightIsPermutation` | src/components/choropleth.js:158-168 | the highlight only reorders the paths (ignoring their tags): none is lost or duplicated |
| `Choropleth.HighlightWithoutMatchKeepsOrder` | src/components/choropleth.js:158-168 | when no path matches, the order is kept and every tag is cleared |
| `Choropleth.HighlightNoSelection` | src/components/choropleth.js:158-168 | highlighting "no selection" clears every tag and keeps the order |
| `Choropleth.HighlightIdempotent` | src/components/choropleth.js:158-168 | highlighting the same selection again changes nothing |
| `Choropleth.KeptRaisedLength` | src/components/choropleth.js:158-168 | the non-matching and the matching paths together are as many as the original paths |
| `Choropleth.AppendChild` | src/components/choropleth.js:163 | `appendChild` of a node that is already a child moves it from its position to the end; every other node keeps its relative order |
| `Choropleth.VisitNext` | src/components/choropleth.js:160-166 | one `classed` callback: it tags the next path and, if the path matches, moves it to the end, advancing the walk by one path |
| `Choropleth.HighlightPaths` | src/components/choropleth.js:158-168 | the in-place walk leaves exactly `Highlighted(old paths)`: the non-matching paths first, in order and untagged, then the matching ones, in order and tagged |
| `Choropleth.ChoroplethMap.constructor` | src/components/choropleth.js:14-15 | before any load, nothing is drawn, no touch is armed, the render count is 0, and the invariant holds |
| `Choropleth.ChoroplethMap.HighlightRegionInMap` | src/components/choropleth.js:158-168 | the map's paths become their highlight for the given selection |
| `Choropleth.ChoroplethMap.Ready` | src/components/choropleth.js:17-59 | a render replaces the drawing with freshly drawn, untagged paths and resets the touch flag |
| `Choropleth.ChoroplethMap.ApplyLoadedTopology` | src/components/choropleth.js:147-156 | a load applied while mounted draws a fresh set of paths, increments the render count, resets the touch flag and re-applies the current selection's highlight; one applied after unmount changes nothing; the invariant is kept |
| `Choropleth.ChoroplethMap.SelectionChanged` | src/components/choropleth.js:170-172 | the effect re-highlights exactly when the selection changed, and restores the invariant |
| `Choropleth.ChoroplethMap.OnMouseover` | src/components/choropleth.js:25-32 | hovering hovers the ward in the explorer; when the ward has a record its name is then selected and the paths end highlighted for it; when it has none, the page handler's exception is caught before the selection, so the selection and the paths stay as they were |
| `Choropleth.ChoroplethMap.OnMouseleave` | src/components/choropleth.js:65-68 | leaving clears the selection and every tag, keeps the draw order, and disarms the flag if it was on that region |
| `Choropleth.ChoroplethMap.OnTouchstart` | src/components/choropleth.js:69-72 | a touch toggles the flag as `Touchstart` says |
| `Choropleth.ChoroplethMap.OnClick` | src/components/choropleth.js:73-77 | a click is swallowed exactly while a touch is armed, and changes nothing |

## Left out

- Geometry is not modelled: the topojson decoding, the Mercator projection, path shapes, the border mesh and the SVG size. The features of a load are a parameter, and each feature is reduced to an identity and its `st_nm` name.
- The topology request (`d3.json`) is I/O. Its outcome is a parameter of `ApplyLoadedTopology`, together with whether the component is still mounted. A failed request is not modelled.
- The tooltip text (`toFixed(3)` formatting), the legend (`renderData`) and all JSX rendering, including `formatNumber` and the date helpers, are presentation code with no state of their own.
- The `regionHighlighted` effect and the body of `switchMapToState` are commented out in the source, so they are not modelled. `SwitchMapToState` is modelled as the no-op it is.
- The page that owns the explorer (`src/components/home.js`) is outside the model: its data fetching and its parsing of ward records. Its `onMapHighlightChange` handler (src/components/home.js:82-84) is modelled only as far as it throws when given `undefined`, because it destructures its argument; `SetHoveredRegion` reports that throw, and its effect on the page's active state code is not modelled. `Explorer.highlightChanges` records what the explorer passes to that handler.
- `ChoroplethMap.OnMouseover`: after a hover over a region whose ward has no record, the explorer's next render destructures the `undefined` hovered region, `currentHoveredRegion` (src/components/mapexplorer.js:126), and throws, which unmounts the tree. That render and the unmount are not modelled; the model stops in the state the hover leaves (hover and panel `undefined`, selection unchanged).
- React scheduling is simplified: each effect runs right after the handler that changes its dependencies.
- `Choropleth.FillBand`: compares exact reals with 0.01 and 0.02, whereas the source compares doubles with the doubles nearest to 0.01 and 0.02. The two agree on every integer sum the explorer produces, since such a sum is either at most 0 or at least 1.
- `ParseInt` works on exact integers and does not round large values to double precision. `IntToDecimal` writes plain decimal digits, which matches JavaScript only for magnitudes below 10^21.
- Field values are always strings. A record loaded with numbers or nested values would first go through `String`, and that conversion is not modelled.
- A field explicitly set to `undefined` and a missing field are the same in the model: a record is a map, and only the reads are observable.
- Both absences of a selection (`{}` and `null`) are one value, `NoSelection`. Neither can match a region name.
- The explorer's initial state on an empty record list is the `undefined` region. The render that destructures it afterwards (src/components/mapexplorer.js:126) throws, and that render is not modelled.
- `MAPS_DIR` and `MAP_TYPES` come from `src/constants`, which is not part of this model. Only the file names `mumbai.json` and `india.json` and the map kinds are modelled.

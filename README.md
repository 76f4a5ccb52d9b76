# Census map: a Dafny model of the client-side marker logic

The census map plugin for a Redmine tracker shows open "census" issues as
markers on a map and lets the user filter them by locality, building type,
address, record number and status. All the logic lives in the page script
`assets/javascripts/censo_mapa.js`. This project models three parts of that
script and proves properties about them:

- `escapeHtml`, the HTML escaper used for popup text.
- The multi-criteria filter run by `window.applyFilters`: reading the five
  filter controls, and the `Array.filter` predicate.
- The page state: the marker layer, the counter, the viewport, the single
  alert slot and the filter controls. `displayMarkers`, `showErrorMessage`,
  `applyFilters`, `resetFilters` and `initMap` are methods over that state.

Modules, one file each:

- `Wrappers` holds `Option` (a value that may be null or undefined) and
  `Result` (an operation that may throw).
- `JsText` models the string built-ins the filter uses: `trim`,
  `toLowerCase` and `includes`.
- `JsScalar` models record numbers and status codes. These arrive as JSON
  numbers, numeric strings or null. The module gives their JavaScript
  truthiness and their `String()`/`toString()` form.
- `HtmlEscape` holds `escapeHtml` as the source's five replace calls in
  order. It also has a per-character reference definition and an unescaper.
- `Markers` defines the marker record and the result of `parseFloat` on a
  coordinate.
- `MarkerFilter` holds the criteria, the per-field tests and `Filter`.
- `Render` says what `displayMarkers` puts on the layer: which records are
  plotted, their colours and their popup texts.
- `MapView` holds the `MapView` class and the page handlers as its methods.

In these places the model follows the code exactly:

- Only NaN coordinates are skipped (`isNaN`, line 88). `parseFloat` can
  return an infinity, and such a record is plotted and counted.
- The record number goes into the popup without escaping (lines 112, 124).
  Only location, address, building type and status are escaped.
  `Render.PopupSafe` proves that the record number and the four escaped
  field texts hold no raw markup as long as the number is not a string.
- `resetFilters` displays the full list again only when it is non-empty
  (line 266). With an empty list, the layer and counter stay as they were.
- The "rejected" colour is tied to the hard-coded code `"12"`. The status
  code is compared as a string (line 96).
- When nothing can be plotted, the viewport is left unchanged (line 141).
- `showErrorMessage` always removes the previous alert. It inserts the new
  one only if the map element exists (lines 169-182). Without the map
  element, the slot ends up empty.

## Model

| member | source | states |
|---|---|---|
| `JsText.Trim` | assets/javascripts/censo_mapa.js:212-216 | the trimmed value neither starts nor ends with whitespace |
| `JsText.TrimSpec` | assets/javascripts/censo_mapa.js:212-216 | the trimmed value sits in the input with only whitespace on either side, so trim removes whitespace and nothing else |
| `JsText.TrimEmptyIff` | assets/javascripts/censo_mapa.js:212-216 | a control value trims to "" exactly when it is all whitespace, so a blank box means "no filter" |
| `JsText.TrimIdempotent` | assets/javascripts/censo_mapa.js:212-216 | trimming an already trimmed value changes nothing |
| `JsText.Lower` | assets/javascripts/censo_mapa.js:214 | toLowerCase keeps the length, maps each character by its case mapping and leaves no upper-case letter |
| `JsText.LowerIdempotent` | assets/javascripts/censo_mapa.js:214 | lower-casing the already lower-cased address filter changes nothing |
| `JsText.Contains` | assets/javascripts/censo_mapa.js:229 | includes is true exactly when the needle occurs at some offset of the haystack |
| `JsText.ShiftOccurrence` | assets/javascripts/censo_mapa.js:229 | a needle that is not a prefix occurs in the haystack exactly when it occurs in the haystack minus its first character |
| `JsScalar.Truthy` | assets/javascripts/censo_mapa.js:230-231 | JavaScript truthiness of a record number or status code: null, 0 and "" are falsy, everything else truthy |
| `JsScalar.ToStr` | assets/javascripts/censo_mapa.js:96 | String(v), and v.toString() on a truthy v (lines 230-231 call it only after a truthiness guard; null.toString() would throw): "null" for null, the decimal digits with a minus sign for a negative number, a string unchanged |
| `JsScalar.DecimalRoundTrip` | assets/javascripts/censo_mapa.js:230-231 | reading back the decimal digits of a number gives the number, so the string form is injective |
| `JsScalar.ToStrIsDecimal` | assets/javascripts/censo_mapa.js:230-231 | String(v) equals the digits of k exactly when v is k as a number or as that digit string |
| `HtmlEscape.ReplaceAll` | assets/javascripts/censo_mapa.js:200-204 | after a global replace the target character no longer occurs (when the replacement lacks it), and a string without the target is unchanged |
| `HtmlEscape.ApplyRules` | assets/javascripts/censo_mapa.js:199-204 | the global replace calls run one after another over the whole string, in list order |
| `HtmlEscape.EscapeHtml` | assets/javascripts/censo_mapa.js:198 | a falsy (empty) argument gives "" |
| `HtmlEscape.ApplyRulesChar` | assets/javascripts/censo_mapa.js:199-204 | when no replacement text holds the target of a later call, each character comes out as the entity of the first call that targets it |
| `HtmlEscape.EscapeRulesNoReescape` | assets/javascripts/censo_mapa.js:199-204 | with '&' replaced first, no entity written by one call contains a character a later call rewrites |
| `HtmlEscape.AmpersandLastReescapes` | assets/javascripts/censo_mapa.js:199-204 | running the '&' replacement after '<' would re-escape the '&' of "&lt;" |
| `HtmlEscape.EscapeHtmlIsCharwise` | assets/javascripts/censo_mapa.js:199-204 | the chain of five global replaces equals escaping each character on its own |
| `HtmlEscape.EscapeHtmlIsEscaped` | assets/javascripts/censo_mapa.js:199-204 | the output holds no raw <, >, " or ', and every & in it begins one of &amp; &lt; &gt; &quot; &#039; |
| `HtmlEscape.UnescapeEscapeHtml` | assets/javascripts/censo_mapa.js:199-204 | unescaping the output gives back the input: other characters are copied unchanged and in order |
| `HtmlEscape.EscapeHtmlPlain` | assets/javascripts/censo_mapa.js:199-204 | text with none of the five special characters comes out verbatim |
| `MarkerFilter.ReadCriteria` | assets/javascripts/censo_mapa.js:212-216 | reading succeeds exactly when the location, building type, address and title controls exist; a failure names a required control that is missing |
| `MarkerFilter.ReadCriteriaNormalized` | assets/javascripts/censo_mapa.js:212-216 | each criterion is its control's value with the surrounding whitespace removed and nothing else changed; only the address is also lower-cased; a missing status control means no status filter |
| `MarkerFilter.ExactMatch` | assets/javascripts/censo_mapa.js:227-228 | an empty filter matches everything; otherwise the field must be present (truthy) and equal to the filter |
| `MarkerFilter.AddressMatch` | assets/javascripts/censo_mapa.js:229 | an empty filter matches everything; otherwise the field must be present and its lower-cased form must contain the filter |
| `MarkerFilter.ScalarMatch` | assets/javascripts/censo_mapa.js:230-231 | an empty filter matches everything; otherwise the value must be truthy and its string form equal to the filter |
| `MarkerFilter.Keep` | assets/javascripts/censo_mapa.js:226-234 | the filter predicate: all five tests (locality, building type, address, record number, status) hold |
| `MarkerFilter.BlankControlsReadAsNoCriteria` | assets/javascripts/censo_mapa.js:212-216 | controls holding only whitespace read as no criteria at all |
| `MarkerFilter.Filter` | assets/javascripts/censo_mapa.js:226-234 | the result is no longer than the input, every element satisfies the predicate, and a marker is in it exactly when it is in the input and satisfies the predicate |
| `MarkerFilter.FilterAppend` | assets/javascripts/censo_mapa.js:226-234 | filtering a concatenation filters each part and concatenates, so every kept occurrence stays in place, repeats included |
| `MarkerFilter.FilterIsSubsequence` | assets/javascripts/censo_mapa.js:226-234 | the filtered list is a subsequence of the loaded list in the original order |
| `MarkerFilter.FilterNoCriteria` | assets/javascripts/censo_mapa.js:226-234 | with all five criteria empty the whole list is returned |
| `MarkerFilter.AbsentFieldNeverKept` | assets/javascripts/censo_mapa.js:227-231 | a record whose field is null, empty or zero is never kept by a non-empty filter on that field |
| `MarkerFilter.KeepCombine` | assets/javascripts/censo_mapa.js:227-233 | combined compatible criteria keep a record exactly when each part keeps it |
| `MarkerFilter.FilterCombine` | assets/javascripts/censo_mapa.js:226-234 | filtering by {A, B} equals filtering by A then by B, and its elements are those kept by A and by B |
| `MarkerFilter.LocationOnly` | assets/javascripts/censo_mapa.js:227 | a locality filter alone keeps exactly the records with that locality |
| `MarkerFilter.StatusOnly` | assets/javascripts/censo_mapa.js:231 | a status filter on code k alone keeps exactly the records whose code is k, as a number (k non-zero) or as a string |
| `MarkerFilter.AddressCaseInsensitive` | assets/javascripts/censo_mapa.js:229 | the address test gives the same answer for an address and its lower-cased form |
| `Render.Plottable` | assets/javascripts/censo_mapa.js:85-91 | a record is skipped exactly when its latitude or longitude parses to NaN |
| `Render.IsRejected` | assets/javascripts/censo_mapa.js:96 | the rejected test: the string form of the status code is exactly "12" |
| `Render.RejectedIff` | assets/javascripts/censo_mapa.js:96 | a record is "rejected" exactly when its status code is 12, given as a number or as the string "12" |
| `Render.StyleOf` | assets/javascripts/censo_mapa.js:96-101 | the rejected colours when the status code is "12" as a string, the default colours otherwise |
| `Render.PopupText` | assets/javascripts/censo_mapa.js:114-117 | a popup line is escaped, and unescaping it gives the field, or the placeholder when the field is falsy |
| `Render.PopupOf` | assets/javascripts/censo_mapa.js:110-117 | the popup texts: the record number unescaped, then locality, address, building type and status, each escaped with its placeholder |
| `Render.PopupSafe` | assets/javascripts/censo_mapa.js:110-130 | locality, address, type and status popup texts hold no raw markup; the unescaped record number is safe when it is null or a number |
| `Render.PlotOne` | assets/javascripts/censo_mapa.js:96-107 | one circle marker added to the layer: the record with the style its status code selects |
| `Render.Bounds` | assets/javascripts/censo_mapa.js:138 | the points passed to bounds.extend: the latitude and longitude of each plottable record, in input order |
| `Render.PlotAll` | assets/javascripts/censo_mapa.js:84-136 | the layer after the forEach: one styled marker per plottable record, appended in input order |
| `Render.ValidCount` | assets/javascripts/censo_mapa.js:82-93 | the count of records with parseable coordinates is at most the number of records |
| `Render.PlotAllSpec` | assets/javascripts/censo_mapa.js:84-139 | the layer holds exactly the plottable records of the input, each styled by its status, and its size is the valid count and the number of bound points |
| `Render.PlotAllAppend` | assets/javascripts/censo_mapa.js:84-136 | the layer for a concatenation is the layer of the first part followed by that of the second, so markers appear in input order, one per plottable occurrence |
| `Render.PlottedStyle` | assets/javascripts/censo_mapa.js:96-105 | a plotted marker has the rejected colours exactly when its status code is 12 |
| `Render.BoundsArePlotted` | assets/javascripts/censo_mapa.js:138 | the i-th point added to the bounds is the position of the i-th plotted marker |
| `Render.AllPlottable` | assets/javascripts/censo_mapa.js:84-93 | when every record parses, the valid count equals the input length |
| `MapView.ViewAfter` | assets/javascripts/censo_mapa.js:141-146 | the viewport is fitted to the bound points with padding 50 and maximum zoom 16 when at least one record was plotted, and left as it was otherwise |
| `MapView.Cleared` | assets/javascripts/censo_mapa.js:253-259 | clearing keeps the set of controls on the page and empties each of them |
| `MapView.ClearedReadsNoCriteria` | assets/javascripts/censo_mapa.js:251-268 | after the controls are cleared they read as no criteria, and filtering by them returns the whole list |
| `MapView.MapView.constructor` | assets/javascripts/censo_mapa.js:16-19 | the page starts with no layer, an empty alert slot and the loaded markers and controls |
| `MapView.MapView.InitMap` | assets/javascripts/censo_mapa.js:24-68 | without the map element nothing changes; otherwise the layer exists, it holds the plotted loaded markers, the counter is their number, and the view is the default or fitted around them |
| `MapView.MapView.DisplayMarkers` | assets/javascripts/censo_mapa.js:74-151 | with a layer: the layer is exactly the plotted records, the counter is the input length, and the view is fitted only when the valid count is positive; without one, nothing changes |
| `MapView.MapView.ShowErrorMessage` | assets/javascripts/censo_mapa.js:168-182 | the slot holds exactly the new message when the map element exists and is empty otherwise; nothing else changes |
| `MapView.MapView.ApplyFilters` | assets/javascripts/censo_mapa.js:210-246 | a missing control leaves the display as it was and shows the filter error; otherwise the filtered list is displayed, and the "no results" alert appears exactly when it is empty |
| `MapView.MapView.DisplayFiltered` | assets/javascripts/censo_mapa.js:236-240 | the "no results" alert is shown for an empty list, then the list is displayed |
| `MapView.MapView.ResetFilters` | assets/javascripts/censo_mapa.js:251-274 | every control is emptied, the alert slot is cleared, and a non-empty loaded list is displayed again in full |

## Left out

- Leaflet is a third-party library and is not modelled: creating the map and
  tile layer, circle-marker geometry, binding popups, the geometry of
  `fitBounds` and `invalidateSize`. The viewport is recorded only as the
  default centre or as the list of points it was fitted to.
- Exceptions thrown inside Leaflet and the `catch` blocks of `initMap`,
  `displayMarkers` and `resetFilters` are not modelled. In `applyFilters`, the
  only exception modelled is reading a missing filter control.
- `parseFloat` is not modelled: a coordinate is held as its parse result
  (finite, an infinity, or NaN). There is no floating point.
- The latitude/longitude bounds box is not modelled. `bounds.isValid()` holds
  whenever one point was added, so the fit depends on the valid count alone.
- The three timers are not modelled: the 100 ms resize after init, the
  250 ms resize debounce, and the 5-second alert auto-dismiss.
- The popup's fixed HTML template is not modelled, nor the coordinates
  interpolated into its map link (line 120); only the record number and the
  four field texts are part of `Render.Popup`.
- Other DOM details are not modelled: a missing counter element (the model
  always has a counter), the popup HTML template around the interpolated
  texts, alert styling, and console logging.
- `mapMarkers` being undefined is not modelled: the loaded list is always a
  sequence.
- JsText.Lower: the case mapping covers ASCII and Latin-1 capitals only, not
  the rest of Unicode case mapping that toLowerCase performs.
- JsScalar.ToStr: record numbers and status codes are unbounded integers or
  strings, not doubles. Non-integral numbers are not modelled, nor the
  exponent form toString uses from 1e21 up (String(1e21) is "1e+21"), nor
  the loss of precision above 2^53; null and undefined both print as
  "null".
- JsScalar.ToStrIsDecimal: numeric and string codes compare alike for every
  natural k in the model; in JavaScript this holds only below 1e21, where
  toString writes every digit.
- Strings are sequences of Unicode characters, not UTF-16 code units.
- app/controllers/censo_mapa_controller.rb is not part of this model. It is
  a database query with fixed tracker and custom-field ids.
- init.rb is not part of this model. It is plugin registration.

# Supplier map: record-selection rules

`scripts/gerar_mapa.js` fetches the active suppliers and their services (exams) from a database view. It writes a static HTML page with a map. Two pieces of logic in it select records, and this project models both as pure Dafny functions and proves what they promise.

- **The generator.** It walks the fetched rows and collects the `[lat, lng]` pair of every row whose two coordinates parse into `boundsArray`. Rows that do not parse are skipped without a message.
- **The page script.** It runs in the browser over the embedded, unpruned `fornecedores` array. It fills the exam dropdown with the sorted, distinct service names, and `renderMarkers` redraws the markers from three inputs:
  - the search box, matched as a case-insensitive substring of the supplier name;
  - the selected exam, matched exactly against each offering's name. Only the matching offerings are listed, and suppliers with none are dropped;
  - the coordinate check again.

Modules, following the script:

- `Wrappers`: `Option`, standing for a JavaScript `null` or a discarded `NaN`.
- `Records`: the `Supplier` and `Offering` rows and the `Point` pair. It also holds `Coordinates`, the `parseFloat`/`isNaN` test both loops apply. The number parser is a parameter `parse: string -> Option<Coord>`, with `None` meaning `NaN`, and a `null` field never yields a number.
- `ServerFilter`: `Bounds`, the generator's `boundsArray` loop.
- `Text`: JavaScript's string `<`, `toLowerCase` and `includes`.
- `Sorting`: `Array.prototype.sort()` on strings, as insertion sort. It includes the proof that a strictly ascending list is determined by its elements, so the engine's actual sort algorithm does not matter.
- `ExamDropdown`: the `Set` of service names and the sorted option list.
- `MarkerRender`: the per-supplier callback (`MarkerFor`), the whole render (`Render`), and the imperative `RenderMarkers` that clears the layer and adds markers in a loop.
- `Scenario`: one laboratory worked through all three pieces.

Loops that push or add in array order are modelled by recursion on the last element. The "kept exactly these, in this order" properties are stated with `Seqs.Positions(mask)`, the strictly increasing list of positions where a test holds. The j-th output element comes from the j-th such position.

## Model

| member | source | states |
|---|---|---|
| ServerFilter.Bounds | scripts/gerar_mapa.js:47-54 | `boundsArray` never has more entries than there are rows |
| ServerFilter.BoundsKeepsLocated | scripts/gerar_mapa.js:47-54 | `boundsArray` holds one point per row whose coordinates parse and none for any other row, in row order; the j-th point is the point of the j-th such row |
| Text.BelowTotal | scripts/gerar_mapa.js:136 | the default sort order on strings relates every two distinct strings |
| Text.BelowTransitive | scripts/gerar_mapa.js:136 | the default sort order on strings is transitive |
| Text.BelowIrreflexive | scripts/gerar_mapa.js:136 | no string sorts before itself |
| Text.LowerSpec | scripts/gerar_mapa.js:148 | lower-casing keeps the length, turns each covered capital into the letter 32 code points above it (its lower-case form), leaves no capital, and changes no other character |
| Text.LowerIdempotent | scripts/gerar_mapa.js:148 | lower-casing an already lower-cased text changes nothing |
| Text.IncludesFindsOccurrence | scripts/gerar_mapa.js:158 | `includes` is true exactly when the needle occurs at some position of the haystack |
| Text.IncludesEmpty | scripts/gerar_mapa.js:158 | every name includes the empty search text |
| Sorting.Insert | scripts/gerar_mapa.js:136 | inserting into a sorted list gives a sorted list with the same elements plus the new one |
| Sorting.Sort | scripts/gerar_mapa.js:136 | the sorted list is ascending and a permutation of its input |
| Sorting.StrictWhenNoDuplicates | scripts/gerar_mapa.js:136 | sorting a duplicate-free list gives a strictly ascending list |
| Sorting.StrictlySortedUnique | scripts/gerar_mapa.js:136 | two strictly ascending lists with the same elements are equal, so every correct sort of the set gives the same options |
| ExamDropdown.AddName | scripts/gerar_mapa.js:131 | `Set.add` keeps the earlier elements in order, adds the name, and creates no duplicate |
| ExamDropdown.AddOfferings | scripts/gerar_mapa.js:131 | after one supplier's offerings are added, the set holds the earlier names plus each offering's name, and nothing else |
| ExamDropdown.CollectNames | scripts/gerar_mapa.js:127-133 | the set holds exactly the names offered by some supplier that has an offering list; suppliers with a null list add nothing; no duplicates |
| ExamDropdown.ExamOptions | scripts/gerar_mapa.js:127-141 | the dropdown options are strictly ascending and without duplicates, and they are exactly the offered service names |
| ExamDropdown.ExamOptionsDependOnlyOnNames | scripts/gerar_mapa.js:127-136 | the options depend only on which names are offered, not on the order of suppliers or offerings or on repeated names |
| MarkerRender.OfferingsNamed | scripts/gerar_mapa.js:163-164 | every listed offering has the selected name, and the list is empty exactly when no offering has that name |
| MarkerRender.OfferingsNamedMembers | scripts/gerar_mapa.js:163 | an offering is listed exactly when it is one of the supplier's offerings and has the selected name |
| MarkerRender.OfferingsNamedKeepsOrder | scripts/gerar_mapa.js:163 | the listed offerings are exactly those with the selected name, in their original order |
| MarkerRender.MarkerFor | scripts/gerar_mapa.js:151-192 | one supplier yields at most one marker |
| MarkerRender.MarkerForShows | scripts/gerar_mapa.js:153-165 | a supplier yields a marker, its own, exactly when it has a point, its name matches the search, and (with an exam selected) it offers that exam |
| MarkerRender.MarkerForAdmitted | scripts/gerar_mapa.js:153-165 | the marker a supplier yields stands at its point and lists all its offerings. With an exam selected it lists at least one offering, exactly those with that name, in their original order and with their repeats |
| MarkerRender.Render | scripts/gerar_mapa.js:151-193 | a render never adds more markers than there are suppliers; which supplier each marker belongs to is stated by `RenderKeepsShown` |
| MarkerRender.RenderAdmitsOnly | scripts/gerar_mapa.js:153-165 | every rendered supplier has a point that is its marker's point, and its lower-cased name contains the lower-cased search text. With no exam selected the popup lists all its offerings. With an exam selected it lists at least one offering: exactly the ones with that name, in their original order, as `filter` returns them |
| MarkerRender.RenderKeepsShown | scripts/gerar_mapa.js:151-165 | the rendered suppliers are exactly those passing the point, name and exam tests, in array order: the j-th marker belongs to the j-th such supplier |
| MarkerRender.EmptySearchShowsLocated | scripts/gerar_mapa.js:151-162 | with empty search text and no exam selected, a supplier is shown exactly when its coordinates parse |
| MarkerRender.UnfilteredRenderMatchesBounds | scripts/gerar_mapa.js:151-162 | with empty search text and no exam selected, the j-th marker stands at the j-th point of the generator's `boundsArray` and lists its supplier's full offering list, and there are as many markers as points |
| MarkerRender.SearchIgnoresCase | scripts/gerar_mapa.js:148-158 | two search texts with the same lower-case form render the same markers |
| MarkerRender.RenderMarkers | scripts/gerar_mapa.js:144-193 | after a render the layer holds exactly the markers for the current data, search text and selection, whatever it held before: renders keep no memory of earlier renders |
| Scenario.LabABounds | scripts/gerar_mapa.js:47-54 | the example laboratory's point is kept |
| Scenario.LabAOptions | scripts/gerar_mapa.js:127-136 | the example's dropdown is exactly `["Hemograma"]` |
| Scenario.LabARender | scripts/gerar_mapa.js:151-165 | searching "LAB" with "Hemograma" selected shows the laboratory at its point with that offering |
| Scenario.LabARenderOtherExam | scripts/gerar_mapa.js:151-165 | selecting an exam the laboratory does not offer shows nothing |

## Left out

- The database client, the query and its `not null` / `NO_COORDS` conditions (lines 1-9, 20-32) are left out: they are network I/O through a foreign library. The model takes whatever rows the query returns.
- The environment-variable check, the error and empty-result early exits, directory creation, file writing and logging (lines 14-17, 34-42, 206-209) are left out as process control and filesystem I/O. The client is created at line 9, before the check at line 14.
- The HTML/CSS template, the popup markup, the amount formatting and the `markers` string (lines 56-114, 167-190) are presentation only. The `markers` string is built but never placed in the page. Likewise `boundsArray` (lines 45, 54) is never read after the loop: no `fitBounds` call uses it and the template does not embed it. So `ServerFilter.Bounds` models a value that never reaches the page, and `UnfilteredRenderMatchesBounds` is a cross-check between the generator's filter and the page script, not a property the page relies on.
- Leaflet map setup, the tile layer, DOM lookups, `<option>` element creation and the event wiring (lines 118-124, 135-140, 179-199) are a third-party UI library. `RenderMarkers` takes the two control values as parameters, and the fixed first option with value `""` stands for "no exam selected".
- Records.Coordinates: `parseFloat` is a parameter, so the model does not fix which texts parse. Coordinates and amounts are real numbers, and floating-point rounding is not modelled.
- Records.Coordinates: `parseFloat("Infinity")` is not `NaN`, so the script keeps such a row, but a real number cannot hold an infinite coordinate. The parameter `parse` can still return `Some` for that text, so the keep/drop decision is modelled but the value is not.
- Text.LowerSpec: only ASCII A-Z and the Latin-1 capitals U+00C0 to U+00DE (except U+00D7) are lower-cased. Other scripts and the length-changing mappings of full Unicode `toLowerCase` are not modelled.
- Text.Below: characters are compared as Unicode scalar values. JavaScript compares UTF-16 code units, and the two orders differ only for characters outside the Basic Multilingual Plane.
- MarkerRender.Render: `nome` is taken to be always present, and every render requires `NoMissingServices`, i.e. no supplier that passes the point and name checks has a null offering list. In the script such a supplier throws a `TypeError` that stops the render (lines 158, 163, 169). The markers added before it stay in the layer. On the first render (line 196) the throw also skips the listener wiring at lines 198-199, so the page never re-renders. Such a throw and its partial layer are not modelled.
- ExamDropdown.CollectNames: a missing `servico` field (`undefined` in the set, sorted last by `sort`) is not modelled. Service names are always strings.

# Publication list of the portfolio page, in Dafny

The portfolio page shows a static catalog of nine publications (`publications`
in src/data.js). A visitor picks a category filter and a year-sort order, and
`renderPublications` (src/main.js) does four things:

- it filters the catalog by category;
- it sorts the result by year twice, first in the opposite direction and then
  in the chosen one;
- it shows a placeholder when nothing matches;
- otherwise it emits one card per record, with a status badge, an optional
  "Read Paper" link and a staggered reveal delay.

Three user actions change the page state: the theme button (`toggleTheme`),
the filter buttons and the year-sort selector.

The model has five modules:

- `Data` (data.dfy) holds the publication record, the catalog as a constant
  sequence, and the catalog's invariants.
- `Sorting` (sorting.dfy) is a stable insertion sort by year that stands in for
  `Array.prototype.sort`. That sort is stable by section 23.1.3.30 of
  ECMA-262, 2023 edition. The module also holds the theory of stable sorting:
  - "stable" means that for every year, the records of that year appear in
    the same order before and after the sort (`WithYear`, `SameYearOrder`);
  - a sorted, stable rearrangement is unique;
  - from uniqueness follow the characterisation of the sort, idempotence, and
    the fact that sorting twice equals sorting once by the second order.
- `Catalog` (catalog.dfy) holds the filter, the double sort exactly as written
  (`Pipeline`), the card decisions and `renderPublications` itself.
- `Interaction` (interaction.dfy) holds the page state and the three user
  actions.
- `CatalogExamples` (examples_catalog.dfy) proves the list the page shows for
  several selections on the real catalog.

Some behaviour of the code worth stating plainly:

- Any sort value other than `newest` sorts oldest first (src/main.js:67-71).
- Any filter value is accepted. `all` shows every record; any other value
  that no record carries yields the placeholder (src/main.js:58-60, 73-76).
- The theme toggle turns `light` into `dark` and everything else, including
  an unexpected stored value, into `light` (src/main.js:48).
- The catalog has three 2025 records: pub3, pub8 and pub9. Under
  `all`/`newest` all three come first.

The comment on the first sort (src/main.js:63) says it is descending for
`newest`, but its comparator `a.year - b.year` sorts ascending. The second sort
overrides it either way: `Sorting.SortAfterSort` shows the first sort has no
effect on what is shown, so the code behaves as intended. The data has one
oddity: pub8 repeats pub6's link label although its link differs
(`Data.Pub8RepeatsPub6Label`). The intended label is not known, so the model
keeps the data as written.

## Model

| member | source | states |
|---|---|---|
| Catalog.Filter | src/main.js:58-60 | The filtered list is a subsequence of the catalog. It holds only records whose category equals the filter (or any record under `all`), and holds each matching record as often as the catalog does. |
| Catalog.Matches | src/main.js:58-60 | Under `all` every record passes. Any other value passes exactly the records whose category equals it. |
| Catalog.FilterEmptyIff | src/main.js:58-60 | The filter leaves nothing exactly when no record of the catalog matches. |
| Catalog.FilterAll | src/main.js:58-60 | With filter `all` the filtered list is the whole catalog in its original order. |
| Catalog.FilterUnmatched | src/main.js:58-60 | A filter value other than `all` that no record carries yields the empty list, not an error. |
| Catalog.FilterOwnTag | src/main.js:58-60 | When category tags are distinct, filtering by one record's tag (a tag other than `all`) yields exactly that record. |
| Catalog.PreliminaryDirection | src/main.js:62-64 | The first sort is ascending exactly under `newest`. A year strictly precedes another exactly when the comparator `a.year - b.year` (under `newest`) or `b.year - a.year` (otherwise) is negative for them. |
| Catalog.FinalDirection | src/main.js:67-71 | The second sort is descending exactly under `newest`. A year strictly precedes another exactly when the comparator `b.year - a.year` (under `newest`) or `a.year - b.year` (otherwise) is negative for them. |
| Catalog.PreliminaryIsOpposite | src/main.js:62-71 | The first sort always runs in the direction opposite to the second. |
| Sorting.Insert | src/main.js:62-71 | Inserting one record into a sorted list keeps it sorted, adds exactly that record, and places it before every record of its own year already present. |
| Sorting.Sort | src/main.js:67-71 | The sort's result is ordered by year in the given direction, is a permutation of its input, and keeps the input order among records of equal year. |
| Sorting.WithYearMembers | src/main.js:67-71 | A year group holds exactly the records of that year, which is what stability compares. |
| Sorting.SortedStableUnique | src/main.js:67-71 | Two lists ordered by year in the same direction, with the same order inside every year, are equal. |
| Sorting.SortCharacterized | src/main.js:67-71 | Any ordered rearrangement that keeps the order inside every year is exactly the sort's result. |
| Sorting.SortIdempotent | src/main.js:67-71 | Sorting an already ordered list leaves it unchanged. |
| Sorting.SortAfterSort | src/main.js:62-71 | Sorting a sorted list again, in any direction, gives the same result as sorting the original once in the second direction. |
| Catalog.Pipeline | src/main.js:58-71 | Filtering and then sorting twice, as written, equals one stable sort of the filtered list in the direction the sort value selects. |
| Catalog.PipelineOrdered | src/main.js:66-71 | Under `newest` years never increase along the list. Under any other value they never decrease. |
| Catalog.PipelinePermutation | src/main.js:62-71 | The shown records are exactly those the filter passes, and changing the sort value never changes which records are shown. |
| Catalog.PipelineStable | src/main.js:62-71 | Records of equal year are shown in their catalog order. |
| Catalog.PipelineIdempotent | src/main.js:56-71 | Running the filter and sorts again on what is shown, with the same selection, changes nothing. |
| Catalog.CardFor | src/main.js:78-115 | A card keeps its record. It has a status badge iff the status is not `Published` (line 92), a link iff the link is non-empty (line 104), and delay `StaggerMs` (100 ms) times its position (line 81). |
| Catalog.BuildCards | src/main.js:78-115 | Card i shows record i and has delay `StaggerMs` (100 ms) times i. It has a status badge iff the status is not `Published`, and a link iff the link is non-empty. |
| Catalog.RenderPublications | src/main.js:54-116 | The placeholder appears iff no record matches. Otherwise there is one card per matching record, in the single stable sort's order, with badge, link and delay decided per card. |
| Interaction.Initial | src/main.js:5-9 | The page starts with filter `all`, sort `newest` and the given stored or preferred theme. |
| Interaction.IsDark | src/main.js:37-45 | The page gets dark styling exactly when the theme is `dark`. Any other value, including an unexpected stored one, gets light styling. |
| Interaction.ToggleTheme | src/main.js:47-48 | A toggle changes only the theme. The new theme is `light` or `dark`, and it is `dark` iff the old one was `light`. |
| Interaction.ToggleTwice | src/main.js:47-48 | Toggling twice restores the state iff the theme was `light` or `dark`. |
| Interaction.ToggleFlipsDarkness | src/main.js:37-48 | A toggle switches the page between dark and light styling iff the theme was `light` or `dark`. |
| Interaction.Step | src/main.js:213-248 | A filter click changes only the filter, and a sort change changes only the sort value. The theme button toggles the theme and leaves the selection alone. |
| Interaction.FilterClickShows | src/main.js:229-230 | After a filter click the list holds exactly the records the new filter passes, each as often as in the catalog. |
| Interaction.SortChangeKeepsRecords | src/main.js:245-247 | After a sort change the same records are shown, only reordered. |
| Interaction.ThemeClickKeepsList | src/main.js:47-51 | The theme button does not change the list. |
| Data.PublicationsWellFormed | src/data.js:1-110 | The ids are distinct. Each record has both a link and a label or neither. Every status is `Published`, `Preprint` or `In Review`. |
| Data.PublicationsDistinctCategories | src/data.js:1-110 | All category tags of the catalog are distinct. |
| Data.OnlyPub9Unlinked | src/data.js:99-108 | pub9 is the only record with an empty link and the only one with an empty link label. |
| Data.PublicationsYears | src/data.js:1-110 | Every record dates from 2024 or 2025. |
| Data.Pub8RepeatsPub6Label | src/data.js:63-96 | pub8 carries pub6's link label although its link is different. |
| CatalogExamples.TwoYearsNewest | src/main.js:67-68 | A list drawn from two years sorts newest first into its later-year records, then its earlier-year records, each in list order. |
| CatalogExamples.TwoYearsOldest | src/main.js:69-70 | The same list sorts oldest first into its earlier-year records, then its later-year records. |
| CatalogExamples.CatalogGroups | src/data.js:1-110 | The 2025 records of the catalog, in order, are pub3, pub8, pub9. The 2024 records are pub1, pub2, pub4, pub5, pub6, pub7. |
| CatalogExamples.AllNewest | src/main.js:58-71 | Under `all`/`newest` the page shows pub3, pub8, pub9, pub1, pub2, pub4, pub5, pub6, pub7. |
| CatalogExamples.AllOldest | src/main.js:58-71 | Under `all`/`oldest` the page shows pub1, pub2, pub4, pub5, pub6, pub7, pub3, pub8, pub9. |
| CatalogExamples.InitialList | src/main.js:5-9 | At page load (filter `all`, sort `newest`, any stored or preferred theme) the list shows pub3, pub8, pub9, pub1, pub2, pub4, pub5, pub6, pub7. |
| CatalogExamples.MedicalAi | src/main.js:58-71 | Filter `medical-ai` shows only pub3, whatever the sort value. |
| CatalogExamples.UnknownCategory | src/main.js:58-76 | Filter `nonexistent-category` shows no record, so the placeholder is rendered. |

## Left out

- HTML building: the markup, `innerHTML`/`appendChild` and CSS classes of the cards and the placeholder (src/main.js:74-114). These are presentation only. The model keeps the decisions: which records, which badge, which link, which delay.
- Record fields: `title`, `authors`, `categoryLabel` and `categoryColorClass` are not in the `Publication` record. They are only interpolated into markup and never affect filtering, ordering or the card decisions. Their long text would only slow the verifier.
- Mutation: no mutation of `publications` is modelled, because Dafny sequences are values. That `filter` makes a new array and only the copy is sorted holds by construction.
- Theme I/O: the initial theme comes from `localStorage` and `matchMedia`, and the toggle writes `localStorage`. The stored theme is a parameter of `Interaction.Initial`, and the write is not modelled. `applyTheme`'s class changes are reduced to `IsDark`.
- Browser effects: the tilt effect, the IntersectionObserver reveal, `setTimeout` re-observation, scroll-spy highlighting, the mobile menu and the contact form. These are browser, layout, floating-point or network behaviour outside the publication list.
- Other data and files: the `services` and `projects` data and their rendering, src/App.js, and the build configuration. None of them holds list logic.
- The engine's sort algorithm: `Sorting.Sort` is an insertion sort, not the engine's own algorithm. Only the result is compared, and a stable sort's result is unique (`Sorting.SortCharacterized`). Comparator results are reduced to "strictly precedes" on years, which matches `a.year - b.year` on the integer years of the catalog.

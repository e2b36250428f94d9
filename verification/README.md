# Living Dex core, modelled in Dafny

The Living Dex is a browser app for tracking a "living dex": the 1025 species of
the national Pokédex, each marked caught or missing. Its single script, `app.js`,
is mostly DOM and network plumbing. This project models the pure rules inside it
and proves properties of them:

- **List filter** (`rebuildList`). The list view keeps, in index order, the
  entries that pass the caught/missing mode test and the search query test.
  The query test is an exact decimal id or a substring of the name.
- **Caught store**. The caught set is a JavaScript `Set`, persisted as a JSON
  array. It covers loading, saving, the catch/release toggle and the progress
  counters.
- **Species text pickers**. The flavor text is the last English entry, else the
  first entry, else a fixed message, and is whitespace-normalised. The genus is
  the first English genus, else "—". The id/generation meta line is included.
- **Encounter aggregation** (`buildEncounterUI`, data part). Version blocks
  become rows and are grouped by version in input order. Levels and chance are
  reduced over finite values only. Versions are sorted and the first is active.
  Each version's rows are de-duplicated by area, first occurrence winning. At
  most 120 are shown, with a "Showing 120 of M" note.
- **Carousel**. This covers the clamped offset and the nearest-chip scan. The
  detail card is notified only when the centred id changes. Also modelled:
  `goToIndex` with and without animation, the drag gestures and the jump buttons.

Files:

| file | module | contents |
|---|---|---|
| `basics.dfy` | `Basics` | `Option`, `clamp` on integers and reals, `Math.abs` |
| `seqs.dfy` | `Seqs` | subsequences; first-occurrence-wins de-duplication by a key (what `new Set(array)` and the area `seen` loop compute) |
| `text.dfy` | `Text` | `String(n)` and its inverse, `pad3`, `cap`, `includes`, ASCII `toLowerCase` |
| `whitespace.dfy` | `Whitespace` | `\s`, `replace(/\f/g," ")`, `replace(/\s+/g," ")`, `trim`, and the words view of a string |
| `species_text.dfy` | `SpeciesText` | `pickEnglishFlavor`, `pickEnglishGenus`, the meta line |
| `ordering.dfy` | `Ordering` | the version sort order and an insertion sort |
| `encounters.dfy` | `Encounters` | `buildEncounterUI`'s rows, grouping, tabs, de-duplication, cap and row text |
| `caught_store.dfy` | `CaughtStore` | `loadCaught`, `saveCaught`, the catch button, `setCaughtUI`, `updateProgress` |
| `list_filter.dfy` | `ListFilter` | `dexIndex`, the query, `rebuildList`'s filter and row label |
| `carousel.dfy` | `Carousel` | `maxScrollX`, `setTrackX`, `updateCenterStyles`, `maybeUpdateSelectionFromCenter`, `goToIndex`, `animateTrackTo`, the pointer handlers and jump buttons |

Modelling choices:

- Strings are sequences of Unicode code points (a Dafny `char` is a scalar
  value), where JavaScript strings are sequences of UTF-16 code units. The two
  agree on text with no character above U+FFFF.
- A JSON field that is absent, and a number that is not finite, are `None`.
- A caught set is a sequence of distinct ids in insertion order, because a JS
  `Set` iterates in insertion order and `Array.from` writes that order.
- Offsets are exact reals.
- A chip's on-screen box is replaced by the layout `goToIndex` itself assumes
  (app.js:252-254): chip `i` is centred at `22 + 98·i + 43 + trackX` from the
  carousel's left edge. The viewport centre is at half the carousel's width.
- The frames of an animation are a parameter: a sequence of eased fractions.
  The final frame is the clamped target, as in the source (fraction 1).

## Model

| member | source | states |
|---|---|---|
| Basics.ClampInt | app.js:89 | the result lies in `[a, b]` when `a <= b`; a value already inside is kept; below gives `a`, above gives `b`; crossed bounds give `a` because `Math.max` is outermost |
| Basics.ClampReal | app.js:89 | the same bounds and in-range fixpoint for offsets |
| Text.Decimal | app.js:490 | `String(id)` is a non-empty digit string with no leading zero except for 0 |
| Text.DecimalRoundTrip | app.js:490 | reading back `String(n)` gives `n` |
| Text.DecimalInjective | app.js:490 | two ids print alike exactly when they are equal |
| Text.PadId | app.js:90 | `pad3` pads with zeros to four characters (not three) and ends with `String(n)` |
| Text.PadIdRoundTrip | app.js:90 | the padded id still reads back as the id |
| Text.Cap | app.js:91 | `cap` keeps the length, turns every hyphen into a space and changes nothing else |
| Text.CapJoin | app.js:91 | capping a hyphen-joined name caps each part and joins them with a space |
| Text.ContainsIff | app.js:491 | `includes` holds exactly when the query occurs at some position of the name |
| Text.AsciiLower | app.js:483 | lower-casing keeps the length, turns each ASCII capital into its small letter (code + 32) and changes nothing else |
| Text.AsciiLowerIgnoresCase | app.js:483 | strings that differ only in the case of ASCII letters lower-case alike, and lower-casing twice is lower-casing once |
| Whitespace.Trim | app.js:133 | the trimmed text is a slice of the input that drops only whitespace before and after it, and neither starts nor ends with whitespace |
| Whitespace.NormalizeIsJoinedWords | app.js:133 | the normalised text is the text's whitespace-separated words joined by single spaces |
| Whitespace.NormalizeWellSpaced | app.js:133 | the normalised text has no form feed, no whitespace but single spaces, no two spaces together and nothing to trim |
| Seqs.DedupBy | app.js:376-382 | first-occurrence de-duplication keeps an order-preserving subsequence with no repeated key, every key of the input, for each key its first element, and the keys in the order they first appear |
| Seqs.DedupDistinct | app.js:46 | de-duplicating a sequence without repeats gives it back unchanged |
| SpeciesText.PickEntryChoice | app.js:128-132 | the entry read is the last English entry when there is one, else the first entry, else none |
| SpeciesText.PickFlavorChoice | app.js:128-133 | the flavor text is the normalised text of that entry, or exactly "No flavor text found." when there are no entries |
| SpeciesText.PickFlavorWellSpaced | app.js:133 | the flavor text is the fixed message or has no form feed, no whitespace run and no leading or trailing whitespace |
| SpeciesText.FlavorExample | app.js:128-133 | an English "A.\fB." followed by a French entry gives "A. B." |
| SpeciesText.FirstEnglishGenusChoice | app.js:135-138 | the genus is that of the first English entry, or "—" when no entry is English |
| SpeciesText.DexMeta | app.js:446 | the meta line starts with `#` and the padded id, then shows the capped generation, or "unknown gen" when it is missing or empty |
| Encounters.MethodNamesExact | app.js:354 | the methods of a row are exactly the present, non-empty method names, never more than the details |
| Encounters.MethodNamesAppend | app.js:354 | names are collected detail by detail: the list for two runs of details is the first list followed by the second, so order and repeats are kept |
| Encounters.MethodRepeatExample | app.js:354 | details "walk", none, "walk" show as "Method: walk, walk" |
| Encounters.MethodTextDash | app.js:393 | "Method: —" is shown exactly when the row has no method name (or its only name is "—") |
| Encounters.FormatRowNoDetails | app.js:386-396 | a version block without encounter details shows its capped area and "Method: — • Lv: — • Chance: —" |
| Encounters.MinFinite | app.js:355 | the minimum level is unknown exactly when no level is finite; otherwise it is one of them and no finite level is smaller |
| Encounters.MaxFinite | app.js:356-357 | the maximum level and the chance are unknown exactly when no value is finite; otherwise each is one of them and no finite value is larger |
| Encounters.AllRowsOrigin | app.js:346-359 | every row comes from one version block of one record and carries that block's version and that record's area |
| Encounters.AllRowsAt | app.js:346-359 | there is one row per version block, record by record and block by block: block `j` of record `i` is row `BlockCount(enc[..i]) + j` |
| Encounters.GroupIsFilter | app.js:349-352 | the version map has a key exactly for each version seen, and its list is that version's rows in input order |
| Encounters.VersionList | app.js:367 | the tab list is sorted without repeats and holds exactly the versions seen |
| Encounters.PanelVersions | app.js:365-368 | the tabs are sorted; a version has a tab exactly when some row has it; the first tab is active and rendered, and none is active when there are no versions |
| Encounters.ClickTab | app.js:417-421 | a tab click makes that version active, keeps the tab list and groups, and shows that version's list |
| Encounters.ClickTabShows | app.js:370-421 | clicking the tab of `v` lists exactly the rows of `v` in input order, de-duplicated and capped, with a header count of at least one |
| Encounters.ListRowsFacts | app.js:372-409 | the listed rows repeat no area; each is its area's first row in input order; all areas are listed when at most 120 are distinct; at most 120 are listed, with "Showing 120 of M" exactly when M > 120; the header counts rows before de-duplication |
| Encounters.RenderVersionRows | app.js:372 | a tab lists the rows of its version in input order |
| Encounters.LevelShownIffFinite | app.js:394 | "Lv: —" is shown exactly when no minimum level or no maximum level is finite; the levels shown bound all finite levels |
| Encounters.ChanceShownIffFinite | app.js:395 | "Chance: —" is shown exactly when no chance is finite; the chance shown is at least every finite chance |
| Encounters.LevelExample | app.js:355-356 | levels 5..7 and (not finite)..9 show as "Lv: 5-9" |
| Encounters.DuplicateAreaExample | app.js:376-382 | two records for one area in one version give one listed row, the first, while the header counts two |
| CaughtStore.Load | app.js:45-48 | loading gives a set without repeats; from an array it keeps exactly the array's ids, ordered by their first occurrence; nothing stored or unparsable text gives the empty set |
| CaughtStore.LoadRepeatsExample | app.js:45-48 | a stored `[1, 2, 1]` loads as `[1, 2]` |
| CaughtStore.LoadSave | app.js:45-51 | what is saved loads back unchanged, order included |
| CaughtStore.Remove | app.js:467 | deleting an id removes exactly that id and keeps the rest in order |
| CaughtStore.Toggle | app.js:465-472 | the toggle flips the membership of that one id, leaves every other id as it was, and keeps the set free of repeats |
| CaughtStore.ToggleTwice | app.js:465-472 | toggling twice restores membership; starting from "not caught" it restores the set exactly |
| CaughtStore.CatchClick | app.js:464-473 | a click toggles id `currentIndex + 1` only, and the value written loads back as the new set |
| CaughtStore.ButtonLabel | app.js:320-324 | the button reads "RELEASE" exactly when the id is caught and "CATCH" exactly when it is not |
| CaughtStore.ProgressAlways | app.js:140-143 | whatever ids are stored, the caught counter is the number of distinct caught ids and the two counters add up to 1025 |
| CaughtStore.ProgressCounts | app.js:140-143 | with dex ids only, the counters are the numbers of dex ids caught and not caught; the missing count is non-negative and they add up to 1025 |
| CaughtStore.ToggleInDex | app.js:464-472 | toggling a dex id keeps every caught id a dex id |
| ListFilter.BuildIndex | app.js:575 | the i-th name gets id i + 1 |
| ListFilter.BuildIndexDistinct | app.js:575 | the index repeats no entry, so no filtered list repeats one, and an id query matches at most one index entry |
| ListFilter.Query | app.js:483 | the query is the input with only surrounding whitespace dropped, each character lower-cased; it neither starts nor ends with whitespace |
| ListFilter.QueryIdempotent | app.js:483 | a query is its own query |
| ListFilter.RebuildList | app.js:485-492 | the list is an order-preserving subsequence of the index, and an entry is in it exactly when it passes the mode and query tests |
| ListFilter.KeepCases | app.js:486-491 | with an empty query an entry is kept exactly when it passes the mode test; otherwise it must also have the query as its id or inside its name |
| ListFilter.IdQueryExact | app.js:490 | an id query matches exactly the entry with that id |
| ListFilter.CaughtMissingDisjoint | app.js:486-488 | the "caught" and "missing" lists share no entry |
| ListFilter.ModesSplitAll | app.js:485-492 | filtering the "all" list by caught or missing gives the "caught" or "missing" list, and their lengths add up to its length |
| ListFilter.EmptyQueryAll | app.js:489 | "all" with an empty query lists the whole index |
| ListFilter.RebuildListDistinct | app.js:485 | the list repeats no entry when the index repeats none |
| ListFilter.SubLabel | app.js:512 | the row label starts with `#` and the padded id and ends in "caught" exactly when the id is caught |
| Carousel.MaxScrollX | app.js:195-200 | `maxScrollX` is non-negative, at least content width minus view width, and equal to one of the two |
| Carousel.ClampTrack | app.js:202-204 | the applied offset lies in `[-maxScrollX, 0]`; an offset inside is kept; past either end gives that end |
| Carousel.Nearest | app.js:219-235 | the scan returns no chip exactly when there are none; otherwise a chip no farther than any, strictly nearer than every earlier chip (first minimum wins) |
| Carousel.Notify | app.js:238-244 | `renderDex` is called, once, exactly when the current id differs from the last id notified; afterwards that id is the last notified |
| Carousel.SetTrackX | app.js:202-208 | the offset is clamped; the current index becomes the nearest chip; only offset, index and last id change; a render happens exactly when the new id differs from the last one |
| Carousel.TargetIndex | app.js:247 | the target index lies in `[0, count - 1]`; an index inside is kept; below 0 gives 0; past the end gives the last index; no chips gives 0 |
| Carousel.DesiredX | app.js:250-254 | the target offset puts the target chip's centre on the viewport centre |
| Carousel.CenterUnique | app.js:228 | at most one chip is marked `is-center` |
| Carousel.CenterIsNearest | app.js:225-234 | a chip marked `is-center` is the chip the scan selects |
| Carousel.GoToIndexCentres | app.js:246-259 | when the target offset is within the clamp range, the target chip lands on the centre, is the only `is-center` chip and becomes current; it is rendered unless it was the last id rendered |
| Carousel.GoToFirstClamped | app.js:246-259 | near an end the target offset is clamped: with 10 chips in a 400-wide carousel `goToIndex(0)` makes index 1 current |
| Carousel.JumpAtEnds | app.js:316-317 | at the first or last chip the jump toward that end targets the same chip again |
| Carousel.AnimatedEndsAtTarget | app.js:263-278 | whatever frames are sampled, the animated jump ends in the same state as the immediate one |
| Carousel.PointerMove | app.js:286-290 | a move is ignored unless dragging; while dragging the offset is the clamped start offset plus the pointer's travel |
| Carousel.DragBy | app.js:280-290 | pressing at `p` and moving to `p + dx` puts the track at the clamped old offset plus `dx`; the chip nearest there becomes current and is rendered unless it was the last id |
| Carousel.DragInPlace | app.js:280-290 | pressing and moving back to the same pointer position leaves the offset where it was |
| Carousel.ReleaseSnaps | app.js:291-298 | release and cancel stop the drag and land where `goToIndex` of the current chip lands |
| Carousel.BootRendersOnce | app.js:584 | from the initial state (offset 0, index 0, nothing rendered) boot's `goToIndex(0)` always renders exactly once, the current chip, at the clamped target offset |
| Carousel.ChipClickSelects | app.js:170-173 | clicking the chip or list row of a dex id makes that chip current and centred, and its id the last rendered, when its target offset is in range, whatever frames are sampled |
| Carousel.RunNoRepeat | app.js:238-244 | across any run of offsets no id is rendered twice in a row, nor the id rendered just before the run; the last id notified is the last one rendered, or unchanged when nothing was rendered |
| Carousel.RunEndsNotified | app.js:202-208 | after any non-empty run of offsets the last id notified is the current chip's |
| Carousel.RunSameChip | app.js:238-244 | while every offset of a run keeps the same chip nearest, `renderDex` runs at most once, and not at all if that chip was the last rendered |

## Left out

- DOM construction, classes and styling (`is-caught`, `is-on`), sprites, type pills, view toggling, and the boot/intro progress: user-interface only.
- `getBoundingClientRect` and the carousel's left edge: replaced by the arithmetic layout `goToIndex` assumes. The stylesheet is not part of this model, so real chip positions may differ.
- `fetchJson`, `getPokemon`, `getSpecies`, `getEncounters` and their `Map` caches: network I/O and asynchrony. `renderDex` is not modelled beyond "which ids it is called with".
- `localStorage`, `JSON.parse` and `JSON.stringify`: foreign calls. The stored value is reduced to absent, unparsable, or an array of integer ids. A stored JSON value that is a string, `null` or an array holding non-integers is not modelled.
- CaughtStore.ProgressCounts: requires every caught id to be a dex id. `loadCaught` accepts any stored id, and with others `TOTAL - caught.size` no longer counts the missing dex ids and can go negative; only the sum to 1025 holds then (`CaughtStore.ProgressAlways`).
- CaughtStore.Load: ids read back are not checked against `1..1025`. The source does not check them either, so the progress counters are only known to be non-negative when every stored id is a dex id (`CaughtStore.ProgressCounts`).
- The Web Audio `beep` and `catchSfx`: hardware and timers.
- The easing curve, `requestAnimationFrame` and `performance.now()`: floating point and scheduling. Frames are a parameter, and another event arriving mid-animation is not modelled.
- The wheel handler's `0.8` scaling and its 140 ms debounced snap: floating point and timers.
- The search box's auto-jump (`Number(q)` and the exact-name `find`): JavaScript numeric-string coercion.
- `normalizeGameName`'s `\bversion\b` regular expression, and with it the text of the version tabs and header. The header is modelled by its row count (`VersionView.areaCount`), with the "no data" case being the absence of a view.
- UTF-16 code units: strings are code-point sequences, so the UTF-16 length that `padStart` and `.length` use, lone surrogates, and code-unit order (which differs from code-point order above U+FFFF) are not modelled.
- `localeCompare`: replaced by lexicographic order on code points. Locale collation is not modelled.
- `toLowerCase` beyond ASCII letters: Unicode case mapping is not modelled.
- Numbers are integers. Fractional levels or chances are not modelled.
- `new Set(array)` on an array with non-number elements: ids are integers here.
- A stale-id check in `renderDex` and a separate failure path for encounters: the code has neither. It uses one `try`/`catch` and paints whatever arrives, so neither is modelled.
- Encounters.PanelVersions: the sort uses code-point order rather than locale collation, for the reason above.

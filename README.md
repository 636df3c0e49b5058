# Body highlighter: selection merge, path fills and the demo's click machine

This project models, in Dafny, the selection logic of a React widget that draws a
human silhouette as SVG paths and colours the body parts a caller has selected,
together with the click state machine of the widget's demo application.

`BodyHighlighter` (body.dfy) models `Body` in index.tsx without markup:

- `Merged` is `mergedBodyParts`. It merges the caller's selection list (`data`)
  with the descriptor list of the chosen gender and view.
- `DifferenceWith` is ramda's `differenceWith` under the slug comparison. It is
  modelled by its documented meaning, including the removal of duplicates.
- `GetColorToFill` is `getColorToFill`. `PathFill` chooses the fill of a common,
  left or right path.
- `RenderAll` turns the merged list into `(path string, fill, click target,
  click side)` values, one per drawn `<path>`.
- `Body` applies the prop defaults and the dataset choice by gender and view.

Optional JavaScript properties are `Option` fields, where `None` stands for
`undefined`. A slug comparison `===` is equality of `Option<string>`, so a
missing slug equals a missing slug. `colors[i]` is `ColorAt`, which is `None`
outside the palette. Numeric truthiness (`if (x.intensity)`) is `Truthy`: the
value is present and not 0.

`DemoApp` (app.dfy) models example/src/App.tsx:

- `Click` gives the list that `handleBodyPartClick` leaves behind.
- `WithIntensity` gives the list that `handleIntensityClick` leaves behind.
- `NextEntry` is an independent per-slug state table (absent, both sides, one
  side). `ClickFollowsTable` proves that `Click` follows it.
- Class `App` holds the component's state `bodyParts` and `intensity`. Its
  methods assign the results of those transition functions. Its invariant says
  that no slug is selected twice and that every entry carries the current
  intensity.

Behaviour of the code worth knowing:

- A selection entry whose slug names no descriptor is not dropped. It still
  yields a merged entry, with no slug and no path, so it draws nothing
  (`UnmatchedEntryDrawsNothing`).
- An entry colour is always computed in the merge. A missing or zero intensity
  counts as intensity 1.
- An out-of-range palette index is not clamped. It gives `undefined` (`None`).
- Merged entries never carry `intensity`. The `colors[intensity]` branch of
  `getColorToFill` is therefore never taken while drawing, and every common path
  is filled with its entry's own colour (`CommonFillIsEntryColor`).

## Model

| member | source | states |
|---|---|---|
| `BodyHighlighter.IndexOf` | index.tsx:81 | the index of the first occurrence of a slug, or the length when it does not occur |
| `BodyHighlighter.FindDescriptor` | index.tsx:81 | `find` by slug: the first descriptor with that slug; `None` exactly when no descriptor has it |
| `BodyHighlighter.FindSelection` | index.tsx:91 | `find` by slug: the first selection entry with that slug; `None` exactly when no entry has it |
| `BodyHighlighter.HasSlug` | example/src/App.tsx:26-28 | `bodyPartSelected`, the `some` test by slug (also the membership test of `differenceWith` at index.tsx:97), holds exactly when `find` by the same slug finds an entry |
| `BodyHighlighter.DifferenceWith` | index.tsx:97 | every kept descriptor comes from the dataset and is named by no selection entry; every unnamed slug is kept; no slug is kept twice |
| `BodyHighlighter.Unselected` | index.tsx:97 | reference filter: it keeps exactly the descriptors that no selection entry names, and never grows the list |
| `BodyHighlighter.DifferenceIsUnselected` | index.tsx:97 | with distinct dataset slugs, `differenceWith` is the order-preserving filter |
| `BodyHighlighter.UnselectedWithoutSelection` | index.tsx:97 | an empty selection filters out no descriptor |
| `BodyHighlighter.Merged` | index.tsx:77-102 | the merge has one entry per descriptor left by `differenceWith` plus one per selection entry, and no merged entry carries an intensity or a side; its order is proved in `MergedLayout` |
| `BodyHighlighter.MergedLayout` | index.tsx:79-99 | the merge is the unselected descriptors in dataset order, then one merged entry per selection entry in selection order; its length is their sum |
| `BodyHighlighter.MergeWithoutSelection` | index.tsx:97-99 | with an empty selection and distinct slugs, the merge is the dataset, unchanged and in order |
| `BodyHighlighter.ColorIntensity` | index.tsx:91-94 | the intensity used for a merged entry's colour is the intensity of the first selection entry with that slug when it is present and nonzero, and 1 otherwise (in particular when no entry has the slug); it is never 0 |
| `BodyHighlighter.ColoredAll` | index.tsx:90-95 | one coloured entry per selection entry, in selection order, each the `Colored` entry of it |
| `BodyHighlighter.Colored` | index.tsx:80-94 | a merged entry copies its own entry's side intensities and has no intensity or side; it takes slug and path from the first descriptor with that slug, and has no slug or path when none exists; its colour is `colors[k-1]`, where k is the intensity of the first selection entry with that slug, or 1 |
| `BodyHighlighter.UnmatchedEntryDrawsNothing` | index.tsx:81-88 | a selection entry that names no descriptor contributes zero drawn paths |
| `BodyHighlighter.GetColorToFill` | index.tsx:104-121 | the fill is a palette colour, undefined, or the entry's own colour; it tries, in order, the left intensity minus 1 on a left path, the right intensity minus 1 on a right path, `colors[intensity]` without the minus 1, then the own colour; zero counts as absent |
| `BodyHighlighter.GroupPaths` | index.tsx:129 | `path?.common`, defaulting to `[]` (and `left`, `right` at lines 149 and 168): an entry without a path object, or without that group, has no paths of the group; otherwise the group's array |
| `BodyHighlighter.CommonSelected` | index.tsx:130-142 | `dataCommonPath` is truthy exactly when the first selection entry with the slug has common paths; it is false when no entry has the slug |
| `BodyHighlighter.SelectedSide` | index.tsx:150-151 | the side compared by `isOnlyRight` (and `isOnlyLeft` at lines 169-170) is the side of the first selection entry with the slug, and undefined when no entry has the slug |
| `BodyHighlighter.PathFill` | index.tsx:141-182 | a fill is undefined, the default colour, a palette colour or the entry's own colour; a left (right) path of a slug whose first selection entry selects only the right (left) side is the default colour, any other side path takes `getColorToFill` with its side; a common path takes `getColorToFill` without a side when the first selection entry with its slug has common paths, and keeps the entry's colour otherwise |
| `BodyHighlighter.CommonFillIsEntryColor` | index.tsx:129-143 | no entry of the merge carries an intensity, so every common path is filled with its entry's own colour |
| `BodyHighlighter.RenderGroup` | index.tsx:129-186 | one drawn path per path string of the group, in order; each has the group's fill and reports the entry and the group's side |
| `BodyHighlighter.RenderPart` | index.tsx:129-188 | an entry draws its common paths, then its left paths, then its right paths (a missing group draws nothing); clicks report no side, left and right respectively |
| `BodyHighlighter.RenderPartMembers` | index.tsx:129-188 | a path is drawn for an entry exactly when its string is in the group named by its click side, with that group's fill |
| `BodyHighlighter.RenderAllMembers` | index.tsx:128-189 | a path is drawn exactly when it belongs to a group of some rendered entry, with the fill chosen for that group; unselected descriptors are click targets too |
| `BodyHighlighter.RenderAll` | index.tsx:128-189 | every drawn path reports an entry of the merged list, and its fill is the fill chosen for that entry and click side; `RenderAllMembers` states which paths are drawn |
| `BodyHighlighter.OneSideLeavesOtherDefault` | index.tsx:149-186 | when the first selection entry of a slug selects only one side, every path of the other side is drawn in the default colour |
| `BodyHighlighter.FillWithoutSelection` | index.tsx:141-182 | with no selection, every group of a descriptor is filled with the descriptor's own colour |
| `BodyHighlighter.RenderWithoutSelection` | index.tsx:123-189 | with no selection, exactly the paths of every descriptor are drawn, each in its descriptor's colour |
| `BodyHighlighter.Dataset` | index.tsx:194-198 | female and front give the female front dataset, female and back the female back one, male and front the male front one, male and back the male back one |
| `BodyHighlighter.Body` | index.tsx:68-198 | with the prop defaults applied, every drawn path is filled undefined, in the default colour, in its entry's own colour or in a palette colour (the given `colors`, else the two default blues) |
| `BodyHighlighter.BodyWithoutSelection` | index.tsx:194-198 | the widget draws the female dataset only when asked for, and the back view only when asked for; with no selection it draws exactly that dataset's paths in their own colours |
| `DemoApp.WithoutSlug` | example/src/App.tsx:32-34 | the filter of lines 32-34 and 84-86 never grows the list; `WithoutSlugDrops` says it removes every entry with the slug, and `WithoutSlugAppend` with `WithoutSlugAbsent` that the other entries survive in order |
| `DemoApp.WithoutSlugDrops` | example/src/App.tsx:32-34 | the filter leaves no entry with the clicked slug and keeps only entries of the list |
| `DemoApp.WithoutSlugAbsent` | example/src/App.tsx:32-34 | filtering out a slug that no entry has returns the list unchanged |
| `DemoApp.WithSide` | example/src/App.tsx:54-80 | every entry with the clicked slug gets the new side; every other entry, the length and the order are kept |
| `DemoApp.WithIntensity` | example/src/App.tsx:101-103 | the length and order are kept, and every entry gets the new intensity with its other fields unchanged |
| `DemoApp.Opposite` | example/src/App.tsx:74 | the side not clicked: always different from the clicked side |
| `DemoApp.BothSidesSelected` | example/src/App.tsx:42-44 | holds only for a selected slug; `GuardsReadHeldEntry` shows it reads the held entry's missing side |
| `DemoApp.OppositeSideSelected` | example/src/App.tsx:45-47 | holds only for a selected slug; `GuardsReadHeldEntry` shows it reads the held entry's side being the other one |
| `DemoApp.SideSelected` | example/src/App.tsx:49-51 | holds only for a selected slug; `GuardsReadHeldEntry` shows it reads the held entry's side being the clicked one |
| `DemoApp.GuardsReadHeldEntry` | example/src/App.tsx:42-51 | with one entry per slug, each of the three `some` guards holds exactly when the entry held for the slug has no side, the other side, or the clicked side respectively |
| `DemoApp.Click` | example/src/App.tsx:22-96 | a click on an unselected slug appends one entry with that slug and the current intensity; a click on a selected slug never grows the list; `ClickFollowsTable`, `ClickKeepsOthers` and `ClickKeepsDistinct` state the rest |
| `DemoApp.NextEntry` | example/src/App.tsx:30-94 | reference state table for one slug: a sideless click toggles presence; an absent slug becomes an entry with the current intensity, and the clicked side when there is one; a held entry that stays changes its side, and nothing else |
| `DemoApp.ClickKeepsOthers` | example/src/App.tsx:26-95 | in every branch, entries with a different slug are kept unchanged and in their original order |
| `DemoApp.ClickKeepsDistinct` | example/src/App.tsx:26-93 | at most one entry per slug before a click means at most one after it |
| `DemoApp.ClickFollowsTable` | example/src/App.tsx:26-95 | with one entry per slug, the clicked slug's entry moves as the state table says: a sideless click adds `{...b, intensity}` or removes; a sided click on an absent slug adds `{...b, side, intensity}`, on one side opposite to the click clears the side, on both sides keeps only the side not clicked, on the clicked side removes |
| `DemoApp.ClickKeepsIntensity` | example/src/App.tsx:36-93 | when every entry carries the current intensity, so does every entry after a click |
| `DemoApp.SidelessToggleRoundTrip` | example/src/App.tsx:30-40 | two sideless clicks on a slug that was absent give back the original list |
| `DemoApp.SidedToggleRoundTrip` | example/src/App.tsx:83-93 | two clicks on the same side of a slug that was absent give back the original list |
| `DemoApp.SideCycle` | example/src/App.tsx:41-95 | from an absent slug, clicks left, right, right, left select the left side, both sides, the left side again, and finally return the original list |
| `DemoApp.WithIntensityLastWins` | example/src/App.tsx:98-104 | applying two intensities in turn is applying the last one |
| `DemoApp.WithIntensityKeepsSelection` | example/src/App.tsx:101-103 | rewriting the intensity keeps every slug and every held entry's side |
| `DemoApp.GuardsIgnoreIntensity` | example/src/App.tsx:26-51 | rewriting every entry's intensity changes none of the `some` guards a click tests |
| `DemoApp.ClickCommutesWithIntensity` | example/src/App.tsx:22-104 | a click followed by an intensity change leaves the same list as the intensity change followed by the click |
| `DemoApp.DemoPartsHaveColor` | example/src/App.tsx:209-212 | when every entry carries a picker intensity (1 to 5), every merged entry has a colour, and one that names a descriptor has the swatch of that intensity |
| `DemoApp.App.constructor` | example/src/App.tsx:17-20 | the app starts with nothing selected and intensity 1 |
| `DemoApp.App.HandleBodyPartClick` | example/src/App.tsx:22-96 | the held list becomes the click's result and the intensity is unchanged; the invariant is kept; the clicked slug follows the state table and other entries are untouched |
| `DemoApp.App.HandleIntensityClick` | example/src/App.tsx:98-104 | the intensity becomes the new value and is written into every entry; slugs are kept; the invariant is kept |
| `DemoApp.App.PickSwatch` | example/src/App.tsx:209-212 | a click on swatch k sets intensity k + 1, which lies within 1 to 5, and rebroadcasts it |

## Left out

- JSX and SVG markup, `SvgMaleWrapper`/`SvgFemaleWrapper`, the `scale` and `border` props, and the `style`, `key` and `id` attributes: a drawn path is only its string, fill, click target and click side.
- The anatomical datasets under assets/ are not part of this model. They are a `Datasets` parameter, and path strings are opaque.
- utils/index.ts: `isDarkMode` reads the browser environment. `defaultColor` is an opaque string parameter.
- `onBodyPartClick` being absent (the click does nothing) is not modelled. A drawn path only records what a click would report.
- React machinery is not modelled: `useCallback`, the `useState` setters, and the `Switch`, front/back and male/female toggles and CSS of the demo.
- The demo's guards read `bodyParts` while its updates read `prevBodyParts`. Both are taken as the same list, one transition per click.
- ramda's implementation: `differenceWith` is modelled by its documented meaning.
- Intensities are integers. Fractional or NaN JavaScript numbers (which index the palette as `undefined`) are not modelled.
- Colour strings are opaque; no colour arithmetic exists in the source.

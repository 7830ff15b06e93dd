# manga-mood: filter panel, card text and loading log, in Dafny

manga-mood shows a MyAnimeList user a grid of manga recommendations. This project models
the client-side logic of that grid in Dafny, as pure functions over immutable values, and
proves what the code promises about it. The logic covered is:

- the **filter panel** (`CategoryFilter`): the `classNames` helper, the genre checkbox
  options built from the known genres, checkbox clicks, the per-section "Clear" button,
  and the "Apply" submit that rebuilds the selection from the ticked boxes;
- the **recommendation card** (`ContentCard`): the display text for author, media type and
  status (`isEmpty` / `prettyText`), and the genre tags split from the genre string;
- the **loading-message store** (`LoadingState`): an append-only list of messages.

The component state is an explicit value. A selection is a `map<string, seq<string>>`
from section id to the selected values. Each handler takes the current selection and
returns a `Step`: the next selection, plus the filter it hands to `onApplyFilters` if it
calls the callback. Reading a checkbox from the submitted form becomes a parameter
`checked(sectionId, optionIndex)`.

"Apply" sits in each section's own popover, and each popover has its own form holding
only that section's boxes. `OnFilterChange` models the submit as the code writes it, which
empties the other section (see "## Findings"). `OnFilterChangeKeepingOthers` is the
corrected submit, which rebuilds only the submitted section.

Modules:

| file | module | contents |
|---|---|---|
| `wrappers.dfy` | `Wrappers` | `Option`, standing in for `undefined` |
| `seqs.dfy` | `Seqs` | subsequences; `Without`, which is `filter(x => x !== v)` |
| `text.dfy` | `Text` | character counting, `indexOf`, and `join`/`split` with a one-character separator |
| `ordering.dfy` | `Ordering` | the default string order of `Array.prototype.sort`, and an insertion sort |
| `category_filter.dfy` | `CategoryFilter` | the filter panel |
| `content_card.dfy` | `ContentCard` | card display text and genre tags |
| `loading_state.dfy` | `LoadingState` | the loading-message store |

## Model

| member | source | states |
|---|---|---|
| `Seqs.Without` | src/components/categoryFilter.tsx:110-112 | The result never contains the value. It is a subsequence of the input, so the other values keep their relative order. Every other value keeps its exact multiplicity. |
| `Seqs.WithoutConcat` | src/components/categoryFilter.tsx:110-112 | Filtering a concatenation equals concatenating the filtered parts. |
| `Seqs.WithoutAbsent` | src/components/categoryFilter.tsx:110-112 | Filtering out a value that does not occur returns the list unchanged. |
| `Seqs.SubsequenceConcat` | src/components/categoryFilter.tsx:79-94 | Subsequences of two lists concatenate into a subsequence of the concatenated lists. |
| `Text.FirstIndex` | src/components/contentCard.tsx:32 | The index found holds the character, and no earlier position does. None is returned exactly when the character does not occur. |
| `Text.Split` | src/components/contentCard.tsx:35 | There is one piece more than there are separators, and no piece contains the separator. |
| `Text.JoinSplit` | src/components/contentCard.tsx:35 | Joining the pieces of a split with the separator gives back the original string. |
| `Text.SplitJoin` | src/components/categoryFilter.tsx:46 | Splitting a join of a non-empty list of separator-free parts gives back exactly those parts. |
| `Text.Join` | src/components/categoryFilter.tsx:46 | No parts join to `""`, and one part joins to itself. The first part starts the result, and with two or more parts the separator follows the first part directly. With `Text.JoinConcat` this fixes every join. |
| `Text.JoinConcat` | src/components/categoryFilter.tsx:46 | Joining two non-empty lists puts exactly one separator between the two joins. |
| `Ordering.Sort` | src/components/categoryFilter.tsx:67 | The result is sorted in the default string order and is a permutation of the input. |
| `Ordering.LexLe` | src/components/categoryFilter.tsx:67 | The default string order of `sort()`: `a` sorts no later than `b` when `a` is a prefix of `b`, or when the first character where they differ is smaller in `a`. |
| `Ordering.SortedUnique` | src/components/categoryFilter.tsx:67 | Two sorted permutations of the same multiset are equal, so the sorted genre list is fully determined by the genres. |
| `Ordering.LexLeTotal` | src/components/categoryFilter.tsx:67 | Any two strings are comparable in the sort order. |
| `Ordering.LexLeTransitive` | src/components/categoryFilter.tsx:67 | The sort order is transitive. |
| `Ordering.LexLeAntisymmetric` | src/components/categoryFilter.tsx:67 | Two strings that each sort no later than the other are equal. |
| `CategoryFilter.ClassNames` | src/components/categoryFilter.tsx:45-47 | The result is `""` exactly when every argument is empty. A single argument comes back unchanged. |
| `CategoryFilter.ClassNamesSplit` | src/components/categoryFilter.tsx:45-47 | Suppose no argument contains a space and some argument is non-empty. Then splitting the result on spaces gives the non-empty arguments in their original order, so they are separated by single spaces. The panel's only call passes an argument with spaces, so this lemma does not cover it; `ClassNamesConcat` with the one-argument case of `ClassNames` covers every argument list. |
| `CategoryFilter.ClassNamesPair` | src/components/categoryFilter.tsx:184-187 | Two non-empty arguments, as in the chevron's class list, give the first, one space and the second, whatever spaces they contain. |
| `CategoryFilter.ClassNamesConcat` | src/components/categoryFilter.tsx:45-47 | `classNames` of two argument lists concatenated is the two results joined by one space. The space is dropped when either result is empty. |
| `CategoryFilter.InitialSelection` | src/components/categoryFilter.tsx:59-62 | The starting selection has exactly the genres and status sections, holding the current filters' lists. So a box first renders checked exactly when the current filters include its value in its section. |
| `CategoryFilter.IsChecked` | src/components/categoryFilter.tsx:323-327 | A box renders checked exactly when its section is in the selection and that section's list includes the value. A section missing from the selection renders its boxes unchecked. |
| `CategoryFilter.InstallOnInitialSections` | src/components/categoryFilter.tsx:26-41 | On the panel's own section list, the genres effect keeps the status section as it is and gives the genres section the genre options. The section ids stay distinct. |
| `CategoryFilter.GenreOptions` | src/components/categoryFilter.tsx:67-71 | There is one option per genre, and each option's value equals its label. The values are sorted and are a permutation of the genres. |
| `CategoryFilter.GenreOptionsDetermined` | src/components/categoryFilter.tsx:67-71 | Any option list with labels equal to values, whose values are a sorted permutation of the genres, is exactly the constructed list. |
| `CategoryFilter.FindSection` | src/components/categoryFilter.tsx:65 | The result is the first section with the id, or None exactly when no section has it. |
| `CategoryFilter.InstallGenreOptions` | src/components/categoryFilter.tsx:64-74 | Only the first genres section gets new options, and those are the genre options. All other sections are unchanged, and every id and name is unchanged. With no genres section, nothing changes. |
| `CategoryFilter.Check` | src/components/categoryFilter.tsx:105-107 | The value is appended at the end of its section's list, and the other sections are unchanged. A missing section stays missing, so afterwards the box reads checked exactly when its section exists. |
| `CategoryFilter.Uncheck` | src/components/categoryFilter.tsx:109-113 | Every occurrence of the value leaves its section, and the remaining values keep their order and multiplicity. The other sections are unchanged, and afterwards the box reads unchecked. |
| `CategoryFilter.HandleCheckboxChange` | src/components/categoryFilter.tsx:98-116 | The callback is not called. If the section exists, the clicked box then reads as it was clicked. Every other box reads as before. |
| `CategoryFilter.UncheckUndoesCheck` | src/components/categoryFilter.tsx:105-113 | Unchecking a value that checking just added restores the selection exactly. |
| `CategoryFilter.HandleClear` | src/components/categoryFilter.tsx:118-123 | The section becomes empty, and is added if it was missing. The other sections are unchanged, no box of that section reads checked, and exactly the cleared selection is applied. |
| `CategoryFilter.CollectOptions` | src/components/categoryFilter.tsx:80-93 | Pushing option by option appends exactly the checked values, in option order, to the genres or status list. It leaves every other key alone and ignores other section ids. |
| `CategoryFilter.CollectSections` | src/components/categoryFilter.tsx:79-94 | Over all sections, the genres and status lists each gain the checked values of every section with that id, section by section. |
| `CategoryFilter.OnFilterChange` | src/components/categoryFilter.tsx:76-97 | The next selection has exactly the genres and status sections, each built from the ticked boxes. The callback receives the selection from before the submit. |
| `CategoryFilter.FormReading` | src/components/categoryFilter.tsx:81-85 | In the form of one section's popover, a box of that section reads ticked exactly when the selection includes its value. Every box of another section, and every index past the options, reads unticked. This assumes the form was rendered from the same section list the submit iterates. |
| `CategoryFilter.SubmittedSelectionInOptionOrder` | src/components/categoryFilter.tsx:78-94 | After "Apply", each collected section's list is a subsequence of that section's option values. |
| `CategoryFilter.SubmittedValuesAreOffered` | src/components/categoryFilter.tsx:79-94 | After "Apply", every value in a collected section's list is an option value of some section with that id. |
| `CategoryFilter.SubmittedSelectionIsChecked` | src/components/categoryFilter.tsx:80-92 | After "Apply", a value is selected exactly when some option of that section with that value has its box ticked. |
| `CategoryFilter.SubmitAgreesWithRenderedBoxes` | src/components/categoryFilter.tsx:76-96 | Suppose "Apply" is pressed in one section's popover and the section ids are distinct. Then that section's rebuilt list holds a value exactly when the old selection holds it and the section has an option for it. |
| `CategoryFilter.ApplyEmptiesOtherSection` | src/components/categoryFilter.tsx:76-96 | "Apply" in one section's popover leaves every other collected section empty, so none of its boxes reads checked afterwards. |
| `CategoryFilter.OnFilterChangeKeepingOthers` | src/components/categoryFilter.tsx:76-97 | The corrected submit rebuilds only the submitted section from the ticked boxes. Every other section keeps its list, and the callback still receives the selection from before the submit. |
| `CategoryFilter.ApplyKeepsEveryBox` | src/components/categoryFilter.tsx:76-96 | With the corrected submit, "Apply" from any popover leaves every box of every section reading exactly as before. |
| `ContentCard.PrettyText` | src/components/contentCard.tsx:31-33 | Length is preserved. A string without an underscore is unchanged. Otherwise the result is the input with exactly its first underscore set to a space, so it holds one underscore fewer and one space more, and every other character as often as before. |
| `ContentCard.PrettyTextAt` | src/components/contentCard.tsx:32 | For example `on_hiatus` becomes `on hiatus`. The text before the first underscore and all text after it are kept as they are, later underscores included. |
| `ContentCard.DisplayValue` | src/components/contentCard.tsx:22-30 | The result is never empty. `""` shows as `N/A`. `currently_publishing` shows as `publishing`, which is decided before any underscore is replaced. Every other text shows as `prettyText` of itself. |
| `ContentCard.GenreTags` | src/components/contentCard.tsx:34-35 | No tag contains a comma, and there is one tag more than there are commas, so `""` gives one empty tag. Joining the tags with commas restores the genre string. |
| `LoadingState.AddLoadingMessage` | src/state/loadingState.tsx:15-19 | The list grows by exactly one, and the old list is a prefix of the new one. The new last entry carries exactly the given message. |
| `LoadingState.AddAll` | src/state/loadingState.tsx:15-19 | After several calls, the list has grown by the number of calls, and the old list is still a prefix. |
| `LoadingState.AddAllInCallOrder` | src/state/loadingState.tsx:15-19 | After several calls, the new messages follow the old ones in call order. |
| `LoadingState.ReplayFromInitial` | src/state/loadingState.tsx:13-19 | Starting from the empty initial store, the messages are exactly the calls' messages, in call order. |

## Left out

- JSX rendering is not modelled. This covers the Headless UI dialogs, popovers and transitions, `next/image`, the icons, the class strings and the link to the MyAnimeList page. It is layout with no behaviour beyond the functions above.
- The DOM read in `onFilterChange` (`querySelector` of `#filter-<id>-<index>` and its `checked` property) is the parameter `checked`. The general lemmas hold for any reading. `CategoryFilter.FormReading` is the reading the program produces: the form of one section's popover, rendered from the selection. `preventDefault` is not modelled.
- The mobile filter dialog is rendering only: its form has no submit handler, so only its checkbox clicks reach the model, through `HandleCheckboxChange`.
- React and zustand scheduling are not modelled: `useState`, `useEffect`, the batching of `setSelectedFilters`, and zustand's `set`. Each handler is one pure step from one state to the next. Because the genres effect changes the section list without a re-render, the rendered form can lag the section list by one render; `CategoryFilter.FormReading` assumes they agree.
- Aliasing is not modelled, only value semantics. In the source, the shallow copy in `handleCheckboxChange` lets `push` change the previous state's array, and the genre effect mutates the module-level `filters` array. `InstallGenreOptions` returns the new section list instead.
- `Ordering.Sort`: JavaScript's default sort compares UTF-16 code units, and the model compares characters. The two orders differ only for characters above U+FFFF.
- The user and manga routers are not modelled. They are thin database calls with no logic of their own.
- The MyAnimeList lookups, list and title fetching, catalog sync and the recommendation call are not modelled. They are network I/O outside the client code.
- Authentication and app wiring are not modelled. The only logic there is that the home page does not query on an empty username.
- The numeric `rating`, `rank` and `weighted_rating` fields are not modelled. They are floating-point values that are only displayed.

## Findings

| source | as written | input that shows it | evidently intended | confidence | as-written member | corrected member |
|---|---|---|---|---|---|---|
| src/components/categoryFilter.tsx:78-95 | "Apply" starts from empty genres and status lists and fills them from the submitted form. Each popover's form holds only its own section's boxes, so the other section always comes back empty. | The status selection holds `finished` and "Apply" is pressed in the genres popover. Afterwards the status list is `[]` and the `finished` box reads unchecked, although the callback was just given `finished`. The next "Apply" from the genres popover sends an empty status list. | Only the submitted section is rebuilt, and the other section keeps its selection, so every box reads as before (`CategoryFilter.ApplyKeepsEveryBox`). | medium, not executed | `CategoryFilter.ApplyEmptiesOtherSection` | `CategoryFilter.OnFilterChangeKeepingOthers` |

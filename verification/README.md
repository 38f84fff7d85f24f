# Note organiser, modelled in Dafny

The organiser (`script.js`) keeps a list of *sections*, each holding *notes*. A note has
a category, a content text and a creation time. Every section and note gets its id from
one shared counter, `nextId`. A second counter, `sectionCounter`, feeds the default name
"セクション{k}" that the add-section dialog proposes. One section can be selected
(`currentSection`). For the selected section, the notes list shows each note in stored
order with a 100-character preview of its content and its relative time ("5分前"). The
page shows the same notes grouped by category, each group newest first, with the whole
content and the relative time. The whole state can be saved to a JSON file and loaded back.

The model has nine modules:

- `Wrappers`: `Option`.
- `Text`: `String.prototype.trim`, and decimal rendering and reading of integers.
- `Store`: the records, the filters the delete handlers apply, `find` as an index, and the identifier invariant `FreshIds`.
- `Naming`: the suggestion loop of `showAddSectionModal` and the `セクション(\d+)` counter update of `addSection`.
- `Grouping`: the view `renderNotesDisplay` builds, defined as functions: the category dictionary, its `Object.keys` order, and a stable newest-first sort.
- `NotesView`: the two loops of `renderNotesDisplay`, proved to build that view.
- `Formatting`: `formatDate` and the note preview.
- `Persistence`: the document `downloadData` writes and the defaulting `uploadData` applies.
- `Organiser`: the module variables as the class `Workspace`, with one method per handler that changes them.

Points where the code behaves in a way a reader might not expect; the model follows the code:

- `selectSection` with an id no section carries sets `currentSection` to `undefined`, then throws. The model clears the selection and reports `false`.
- With a known id, `selectSection` sets the selection and then calls `moveSectionToTop`, which `script.js` does not define, although the comment at script.js:44 says the selected section moves to the top. What that function would do is not known. The model chooses to leave the order unchanged and does not model a move to the front.
- Groups are not simply in first-seen order. The dictionary is listed by `Object.keys`, which puts array-index categories ("0", "12", ...) first, in ascending numeric order. The other categories follow in first-seen order. `Grouping.GroupedOrder` states this; `Grouping.GroupedFirstSeen` covers the case without such categories.
- User-entered section names are not checked for duplicates. Only the suggested name is guaranteed fresh.
- The comment at script.js:70 says `nextId++` gives a unique id. Ids are unique and below `nextId` only for states the handlers build from the initial one (`Fresh()`). A loaded file can hold anything.
- A category that names an inherited property of a plain object makes the grouping throw. See Findings.

## Model

| member | source | states |
|---|---|---|
| Text.TrimStart | script.js:67 | the result is a suffix of the input, everything dropped is white space, and it does not start with white space |
| Text.TrimEnd | script.js:67 | the result is a prefix of the input, everything dropped is white space, and it does not end with white space |
| Text.Trim | script.js:67 | the trimmed text has no white space at either end |
| Text.TrimInfix | script.js:67 | what `trim` keeps is one contiguous piece of the input |
| Text.TrimDropsSpace | script.js:67 | everything `trim` drops, before and after the kept piece, is white space |
| Text.TrimEmptyIffAllSpace | script.js:67-68 | the `if (name)` test fails exactly when the input is all white space |
| Text.TrimIdempotent | script.js:156-157 | trimming an already trimmed input changes nothing |
| Text.NatToString | script.js:53 | the interpolated number is all digits, at least one, with no leading zero |
| Text.IntToString | script.js:53 | negative numbers render as `-` followed by the digits of their magnitude |
| Text.DigitsValueOfNatToString | script.js:79 | `parseInt` of a rendered number gives the number back |
| Text.IntToStringInjective | script.js:53 | different numbers render as different texts |
| Naming.SuggestedName | script.js:53 | the proposed name is the prefix "セクション" followed by the decimal rendering of `k`; `Naming.SuggestedNameInjective` and `Naming.NumberInSuggestedName` are proved about it |
| Naming.SuggestedNameInjective | script.js:53 | different counters give different proposed names |
| Naming.FirstMatch | script.js:77 | the regular expression search finds the leftmost position where the pattern matches, and no earlier one |
| Naming.LeadingDigits | script.js:77 | the greedy `\d+` takes the longest run of digits after the prefix |
| Naming.NumberInName | script.js:77-79 | there is no number exactly when the pattern occurs nowhere in the name |
| Naming.CounterAfter | script.js:77-80 | the counter never decreases, ends above the number found in the name, and is unchanged when there is none |
| Naming.NumberInSuggestedName | script.js:51-53 | the counter's pattern reads back `k` from the proposed name for `k` |
| Naming.CounterPassesSuggestion | script.js:77-80 | adding a section under the proposed name `k` sets the counter to the larger of its old value and `k + 1` |
| Naming.TakenNumbersFit | script.js:56-59 | at most as many consecutive proposals can be taken as there are sections, so the loop stops |
| Naming.SuggestName | script.js:51-59 | the proposal is "セクション{k}" with `k` at least `sectionCounter` and at most `sectionCounter` plus the number of sections, carried by no section, and every proposal skipped was taken |
| Store.SectionIndex | script.js:41 | `find` as an index: the first section with the id, or none exactly when no section has it |
| Store.SectionIndexAppend | script.js:74 | pushing a section does not change where a present id is found |
| Store.SectionIndexUpdate | script.js:182 | replacing a section's notes does not change where any id is found |
| Store.Names | script.js:56 | the section names, one per section, in order |
| Store.WithoutSection | script.js:89 | the filter never lengthens the list; `Store.WithoutSectionMember` states that it keeps exactly the sections with another id and `Store.WithoutSectionAppend` that it keeps their order |
| Store.WithoutNote | script.js:182 | the filter never lengthens the list; `Store.WithoutNoteMember` states that it keeps exactly the notes with another id and `Store.WithoutNoteAppend` that it keeps their order |
| Store.WithoutSectionMember | script.js:89 | the filter keeps exactly the sections whose id differs |
| Store.WithoutNoteMember | script.js:182 | the filter keeps exactly the notes whose id differs |
| Store.WithoutSectionAppend | script.js:89 | filtering a concatenation filters each part and keeps them in order |
| Store.WithoutNoteAppend | script.js:182 | the same for notes |
| Store.WithoutSectionAbsent | script.js:89 | deleting an id no section carries changes nothing |
| Store.WithoutNoteAbsent | script.js:182 | deleting an id no note carries changes nothing |
| Store.WithoutSectionIdempotent | script.js:89 | deleting a section twice is the same as deleting it once |
| Store.WithoutNoteIdempotent | script.js:182 | deleting a note twice is the same as deleting it once |
| Store.SelectionSurvivesDelete | script.js:89-90 | after deleting another id, the selected id still finds the very section `currentSection` points to |
| Store.AddSectionKeepsFresh | script.js:69-74 | a new section with id `nextId` and the counter raised by one keep every id unique and below `nextId` |
| Store.AddNoteKeepsFresh | script.js:162-169 | a new note with id `nextId` at the head of one section keeps every id unique and below `nextId` |
| Store.DeleteSectionKeepsFresh | script.js:89 | deleting sections keeps the identifier invariant |
| Store.DeleteNoteKeepsFresh | script.js:182 | deleting notes keeps the identifier invariant |
| Grouping.ObjectKeys | script.js:222 | `Object.keys` of the dictionary, given its insertion order; `Grouping.ObjectKeysOrder` states the order it lists and `Grouping.ObjectKeysSameKeys` that it lists exactly the inserted keys |
| Grouping.ObjectKeysOrder | script.js:222 | `Object.keys` lists each key once: array-index keys first and ascending, then the others in insertion order |
| Grouping.ObjectKeysSameKeys | script.js:222 | `Object.keys` lists exactly the keys that were inserted |
| Grouping.SplitSortOrder | script.js:222 | the keys on which the test holds come first, sorted by value, and the others keep their order |
| Grouping.SplitSortPermutes | script.js:222 | that listing is a permutation of the keys |
| Grouping.InCategoryMember | script.js:213-219 | a note is filed under a category exactly when it is one of the notes with that category |
| Grouping.FirstSeen | script.js:213-219 | the dictionary's insertion order never lists a category twice |
| Grouping.FirstSeenMember | script.js:213-219 | a category is met exactly when some note carries it |
| Grouping.FirstSeenPrefix | script.js:213-219 | the categories met in any prefix of the notes are a prefix of the first-seen order |
| Grouping.InsertByPermutes | script.js:233 | inserting one element adds exactly that element |
| Grouping.InsertBySorted | script.js:233 | inserting into a sorted list keeps it sorted |
| Grouping.InsertByStable | script.js:233 | the new element goes after every element with the same key |
| Grouping.SortBy | script.js:233 | the result is sorted by the key, a permutation of the input, and keeps equal keys in input order |
| Grouping.SortNewestFirst | script.js:233 | the comparator `b.date - a.date` sorts newest first, keeps the same notes, and keeps equal times in stored order |
| Grouping.GroupsOf | script.js:222-233 | one group per key, in the keys' order, each holding that category's notes sorted |
| Grouping.Grouped | script.js:213-233 | the intended view, defined for every list of notes: one group per key of the dictionary, in `Object.keys` order; `Grouping.GroupedCategories`, `Grouping.GroupedDistinct`, `Grouping.GroupedCovers`, `Grouping.GroupedContents` and `Grouping.GroupedOrder` are proved about it |
| Grouping.GroupedCategories | script.js:222 | the groups' categories are the dictionary's keys in `Object.keys` order |
| Grouping.GroupedDistinct | script.js:213-222 | no category gets two groups |
| Grouping.GroupedCovers | script.js:213-222 | there is a group for a category exactly when some note carries it |
| Grouping.GroupedContents | script.js:213-233 | each group holds exactly its category's notes, newest first, with equal times in stored order |
| Grouping.GroupedMember | script.js:213-233 | a group holds a note exactly when the note is one of the section's and has the group's category |
| Grouping.GroupedPlacesNote | script.js:213-233 | every note of the section is in exactly one group, the group for its category, and the groups hold no other notes |
| Grouping.GroupedOrder | script.js:222 | array-index categories come first and ascending; the others come in first-seen order |
| Grouping.GroupedFirstSeen | script.js:213-222 | without array-index categories the groups come in first-seen order |
| Grouping.ThreeNotesGroupedAt | script.js:213-233 | notes in categories A, B, A give group A (both its notes, newest first) and then group B |
| Grouping.ThreeNotesGrouped | script.js:213-233 | the same for three concrete notes |
| NotesView.ScanCategories | script.js:213-219 | the scan fails exactly when some category is an inherited name; otherwise it gives the first-seen order and each category's notes in stored order |
| NotesView.FileNote | script.js:215-218 | filing one note keeps the dictionary equal to the scan of the notes read so far, one note further on |
| NotesView.ListGroups | script.js:222-233 | the listing loop builds exactly the intended groups from the scan's dictionary |
| NotesView.GroupNotes | script.js:206-233 | the view is absent exactly when some category is an inherited name; otherwise it is the intended grouping |
| Grouping.InheritedCategoryBreaksView | script.js:213-218 | one note filed under "toString" makes the scan throw, while the intended view is one group holding it |
| Formatting.ElapsedSince | script.js:308-317 | each kind of answer holds exactly on its interval of elapsed time, and the count is the floor of the elapsed time in that unit |
| Formatting.ElapsedMonotone | script.js:308-317 | as time passes, the answer for a note never gets younger |
| Formatting.FormatDate | script.js:305-317 | less than one minute old, or in the future, reads "たった今"; less than an hour, the whole minutes and "分前"; less than a day, the whole hours and "時間前"; less than seven days, the whole days and "日前"; older, the absolute date |
| Formatting.FormatJustNow | script.js:313 | a creation time less than a minute ago, or in the future, reads "たった今" |
| Formatting.FormatOneHour | script.js:309-315 | exactly sixty minutes reads "1時間前", not minutes |
| Formatting.FormatOneDay | script.js:310-316 | exactly twenty-four hours reads "1日前", not hours |
| Formatting.Preview | script.js:146 | content up to 100 characters is shown whole; longer content shows its first 100 characters followed by "..." |
| Persistence.Encode | script.js:377-382 | the saved document holds the sections, both counters, and the selected id or `null` |
| Persistence.OrOne | script.js:399-400 | the default to 1 keeps a non-zero number and turns a missing value or 0 into 1 |
| Persistence.Decode | script.js:398-401 | missing sections become none, missing or zero counters become 1, and the selection is the saved id exactly when it is non-zero and some section carries it |
| Persistence.DecodeEncode | script.js:377-401 | loading a saved file restores the state, provided the counters and the selected id are non-zero |
| Persistence.ZeroSelectionLost | script.js:381-401 | a selected section with id 0 is not selected after a save and a load |
| Persistence.EncodeDecodeEncode | script.js:377-401 | any loaded state survives a second save and load unchanged |
| Organiser.Workspace.SelectedIndex | script.js:41 | the selected section's position, whose id is the selected one |
| Organiser.Workspace.constructor | script.js:2-6 | the initial state: no sections, nothing selected, both counters 1 |
| Organiser.Workspace.SuggestSectionName | script.js:49-61 | the proposed name is carried by no section and is the first free one from `sectionCounter` |
| Organiser.Workspace.AddSection | script.js:66-85 | a name that trims to nothing changes nothing; otherwise one section with id `nextId`, the trimmed name and no notes is appended, `nextId` rises by one and the counter moves past the name's number; the selection and the id invariant are kept |
| Organiser.Workspace.AppendSection | script.js:69-74 | one section with id `nextId`, the given name and no notes goes last, `nextId` rises by one, and the selection and the id invariant are kept |
| Organiser.Workspace.DeleteSection | script.js:88-97 | exactly the sections with the id are removed, in order, and the selection is cleared only if it was that id |
| Organiser.Workspace.SelectSection | script.js:40-46 | the id is selected when some section carries it; otherwise nothing is selected |
| Organiser.Workspace.BackToSections | script.js:125-130 | nothing is selected and no data changes |
| Organiser.Workspace.AddNote | script.js:155-177 | nothing changes without a selection or when the category or content trims to nothing; otherwise the new note with id `nextId` is first in the selected section and every other section is unchanged |
| Organiser.Workspace.PrependNote | script.js:162-169 | the note with id `nextId` goes first in the selected section only, `nextId` rises by one, and the selection and the id invariant are kept |
| Organiser.Workspace.DeleteNote | script.js:180-186 | nothing changes without a selection; otherwise only the selected section loses its notes with the id |
| Organiser.Workspace.DeleteItem | script.js:291-301 | the context menu's target is deleted as a section or as a note, and nothing happens without a target |
| Organiser.Workspace.NotesDisplay | script.js:206-233 | nothing is shown without a selection; otherwise the page throws exactly when a category is an inherited name, or shows the intended grouping of the selected section |
| Organiser.Workspace.Save | script.js:376-390 | the saved document encodes the state, and decoding it gives the state back when the counters and selection are non-zero |
| Organiser.Workspace.Load | script.js:393-415 | a parse failure or a `null` document changes nothing; any other document replaces the whole state by its decoding |

## Left out

- Rendering is left out: the page's HTML, the modals, the context menu's position, the panel toggle (`togglePanel`, `isPanelHidden`), and the keyboard shortcuts. `contextTarget` is the parameter of `DeleteItem`.
- `getRandomColor` is left out, because it uses randomness and only affects colour.
- The clock is a parameter: `new Date()` is the integer `now` in milliseconds. A note's date is an integer as well. After a load, dates are strings that `new Date` parses back; the model assumes they parse to the same milliseconds.
- `toLocaleDateString('ja-JP')` is the `absolute` parameter of `Formatting.FormatDate`, because locale formatting is a foreign call.
- The JSON text is left out: `JSON.stringify` and `JSON.parse`, `Blob`, the download link and `FileReader`. `Persistence.Parsed` stands for the outcome of the parse.
- Document fields of an unexpected type are left out. An example is a truthy `sections` that is not an array. If the document's `currentSection` is truthy, `uploadData` assigns the first three variables and throws at `find`, so the state is half replaced. Otherwise it assigns all four variables and the throw comes from `renderSections` (script.js:402).
- `moveSectionToTop` is called by `selectSection` but not defined in `script.js`. The model leaves the order unchanged by choice; a move to the front is not modelled.
- `Organiser.Workspace.AddNote`, `Organiser.Workspace.SelectSection`, `Organiser.Workspace.DeleteNote` (the filter at script.js:182 runs before the renders at script.js:183-184) and `Organiser.Workspace.Load` keep their state change when the rendering that follows throws, as the source does. The throw itself is not modelled.
- Grouping.SortBy: `Array.prototype.sort` is modelled on values, as a stable insertion sort, rather than in place. The arrays it sorts are built afresh on each render, so the placement is not observable.
- Formatting.Preview: counts code points, whereas `substring` and `length` count UTF-16 code units. The two differ for characters outside the Basic Multilingual Plane.
- Text.IntToString: does not model JavaScript's exponent notation for numbers of 10^21 and beyond.
- Naming.NumberInName: reads the digits exactly, whereas `parseInt` rounds values above 2^53 to a double.
- Integers are unbounded: `nextId` and `sectionCounter` never reach the double-precision limit in the model.
- Store.WithoutSection: its own contract gives only the length bound. Membership and order are stated by `Store.WithoutSectionMember` and `Store.WithoutSectionAppend`.
- Store.WithoutNote: its own contract gives only the length bound. Membership and order are stated by `Store.WithoutNoteMember` and `Store.WithoutNoteAppend`.
- Text.Trim: its own contract gives only the ends. What is kept and dropped is stated by `Text.TrimInfix` and `Text.TrimDropsSpace`.

## Findings

| source | as written | input that shows it | evidently intended | confidence | as-written member | corrected member |
|---|---|---|---|---|---|---|
| script.js:213-218 | the category dictionary is a plain object literal, so a category named after a property inherited from `Object.prototype` (such as "toString" or "constructor") looks up a function, skips the creation of its list, and `push` throws a TypeError; the section's notes are not shown | one note whose category is "toString" | one group "toString" holding that note, as for any other category | not executed | Grouping.InheritedCategoryBreaksView | Grouping.Grouped |

`NotesView.GroupNotes` and `Organiser.Workspace.NotesDisplay` keep the behaviour as written: the view is absent (`Throws`) exactly when some category is an inherited name. The intended view `Grouping.Grouped` is defined for every list of notes, and `Grouping.GroupedContents`, `Grouping.GroupedCovers`, `Grouping.GroupedDistinct` and `Grouping.GroupedOrder` are proved about it.

# Group-creation contact picker: selection state

This project models the contact-selection core of Telegram's group-creation
screen (`GroupCreateActivity`) and proves properties of the model:

- the selection table, held in two parts: `selectedContacts`, a map from
  user id to chip, and `allSpans`, the chips in the order they were added;
- the text field that shows one `"<<"` placeholder per chip. It is a
  sequence of slots, and a chip's span is the pair of slots that carries
  it. A chip is known by the id of the user it stands for. While the
  invariant below holds the screen never holds two spans for one user, so the
  id stands in for the span object's identity. That premise fails only after
  the uncaught throw described next: the map has lost the key while the list
  kept the chip, and a second tap would append a second chip for that user;
- the row-tap toggle, with the cap of 200 members. Deselecting a user whose
  chip has already left the text throws inside `text.delete(-1, -1)`. Nothing
  in the click handler catches that exception, so it leaves `onItemClick`.
  The model reports it as the outcome `SpanMissing` and stops there: the
  state at that point is not one the screen goes on from;
- the text-change handler:
  - the reconciliation loop that drops chips whose span was erased. It is
    modelled as written: after a removal the index still advances, so the
    chip that moves into the freed position is passed over;
  - the search-mode flags `searching` and `searchWas`;
- the contact search filter (`processSearch`) and the publication of its
  results;
- the list adapter's rules: section and row counts, the divider on the last
  row, and the display-name fallbacks.

Modules:

- `Chips`: slots, spans and the rebuilt text.
- `Selection`: operations on the chip list, including the sweep (the
  reconciliation loop as a function) and its properties.
- `ContactSearch`: the filter.
- `ListAdapterRules`: the adapter's rules.
- `GroupCreate`: the screen as a class whose methods update its fields in
  place.

The invariant `Valid()` states:

- the map's keys are exactly the chips' uids;
- every key maps to its own chip;
- no uid has two chips;
- at most 200 users are selected;
- the two result lists are both absent or of equal length.

Every operation keeps this invariant, except the deselect that throws.

The reconciliation loop is specified twice:

- `LoopRun` follows the loop itself, index by index.
- `Sweep`/`Dropped` give each chip a fate: kept, removed, or passed over
  because the chip before it was removed.

`LoopRunIsSweep` proves that the two agree on every list without repeated
uids.

## Model

| member | source | states |
|---|---|---|
| Chips.StripPlaceholders | TMessagesProj/src/main/java/org/telegram/ui/GroupCreateActivity.java:213-214 | the query has no '<', is no longer than the text, is empty exactly when every character was '<', and contains every other character of the text |
| Chips.StripAppend | TMessagesProj/src/main/java/org/telegram/ui/GroupCreateActivity.java:213 | stripping a concatenation strips each part, so the characters kept stay in their order and each is kept once |
| Chips.StripOne | TMessagesProj/src/main/java/org/telegram/ui/GroupCreateActivity.java:213 | a single character is dropped exactly when it is '<' |
| Chips.SpanStart | TMessagesProj/src/main/java/org/telegram/ui/GroupCreateActivity.java:199 | -1 exactly when the chip has no slot in the text; otherwise the first slot carrying the chip |
| Chips.SpanEnd | TMessagesProj/src/main/java/org/telegram/ui/GroupCreateActivity.java:255 | -1 exactly when the chip has no slot; otherwise one past the last slot carrying it |
| Chips.DeleteRange | TMessagesProj/src/main/java/org/telegram/ui/GroupCreateActivity.java:255 | the text loses the slots [start, end) and keeps what comes before and after |
| Chips.DeleteSpan | TMessagesProj/src/main/java/org/telegram/ui/GroupCreateActivity.java:254-255 | deleting a present span shortens the text and leaves no slot of that chip |
| Chips.SpanBounds | TMessagesProj/src/main/java/org/telegram/ui/GroupCreateActivity.java:255 | a span that is present covers a non-empty range inside the text, so the delete cannot throw |
| Chips.ChipText | TMessagesProj/src/main/java/org/telegram/ui/GroupCreateActivity.java:277-281 | the rebuilt text has two slots per chip |
| Chips.ChipTextAppend | TMessagesProj/src/main/java/org/telegram/ui/GroupCreateActivity.java:343-346 | rebuilding a concatenated list concatenates the two rebuilt texts |
| Chips.ChipTextSlots | TMessagesProj/src/main/java/org/telegram/ui/GroupCreateActivity.java:343-346 | every slot of the rebuilt text is a placeholder of a listed chip |
| Chips.ChipTextRendersAsPlaceholders | TMessagesProj/src/main/java/org/telegram/ui/GroupCreateActivity.java:277-283 | the rebuilt text reads as '<' repeated twice per chip, and its search query is empty |
| Chips.ChipTextSpans | TMessagesProj/src/main/java/org/telegram/ui/GroupCreateActivity.java:277-283 | in a rebuilt text of pairwise different chips, chip i occupies exactly the slots [2i, 2i+2) |
| Selection.DistinctSize | TMessagesProj/src/main/java/org/telegram/ui/GroupCreateActivity.java:94-95 | a chip list without repeats has as many uids as chips |
| Selection.RemoveFirst | TMessagesProj/src/main/java/org/telegram/ui/GroupCreateActivity.java:256 | `ArrayList.remove(Object)` shortens the list by one when the chip is present and leaves it alone otherwise |
| Selection.DeselectSplices | TMessagesProj/src/main/java/org/telegram/ui/GroupCreateActivity.java:251-256 | deselecting removes exactly the chip at its position, keeps the others in order and without repeats, and removes exactly that uid |
| Selection.SelectThenDeselect | TMessagesProj/src/main/java/org/telegram/ui/GroupCreateActivity.java:253-256 | removing a chip that was just appended restores the list |
| Selection.DeselectOnRebuiltText | TMessagesProj/src/main/java/org/telegram/ui/GroupCreateActivity.java:254-256 | on a rebuilt text, the deleted range is [2i, 2i+2), and the result is the rebuilt text of the shorter list |
| Selection.Fates | TMessagesProj/src/main/java/org/telegram/ui/GroupCreateActivity.java:197-203 | one fate per chip. A removed chip has lost its span and a kept chip still has it. The chip right after a removed one is always passed over, and a passed-over chip always follows a removed one. The first chip is always examined |
| Selection.SweepStep | TMessagesProj/src/main/java/org/telegram/ui/GroupCreateActivity.java:197-203 | one pass of the loop body: keep the chip, or remove it and pass over its successor |
| Selection.LoopRunIsSweep | TMessagesProj/src/main/java/org/telegram/ui/GroupCreateActivity.java:197-203 | the index-by-index loop with in-place removal ends with exactly the sweep's survivors and removes exactly its casualties |
| Selection.FatesPartition | TMessagesProj/src/main/java/org/telegram/ui/GroupCreateActivity.java:197-203 | survivors and casualties together are the old list as a multiset |
| Selection.SurvivorsInOrder | TMessagesProj/src/main/java/org/telegram/ui/GroupCreateActivity.java:200 | the survivors keep their relative order |
| Selection.SweepKeepsSelection | TMessagesProj/src/main/java/org/telegram/ui/GroupCreateActivity.java:197-203 | after the sweep the list still has no repeated uid; its uids are the old ones minus the dropped ones; it never grows |
| Selection.SweepExaminedChips | TMessagesProj/src/main/java/org/telegram/ui/GroupCreateActivity.java:197-203 | an examined chip is removed exactly when its span is gone. A chip whose span is present stays. A passed-over chip follows a dropped one |
| Selection.LoopRun | TMessagesProj/src/main/java/org/telegram/ui/GroupCreateActivity.java:197-203 | the loop as written, index by index with in-place removal: the list it leaves and the chips it removes together are as many as the chips it started with, and every removed chip had lost its span |
| Selection.Sweep | TMessagesProj/src/main/java/org/telegram/ui/GroupCreateActivity.java:197-203 | the list after the loop keeps some of the old chips in their old order, and with the dropped chips it makes up the old list as a multiset |
| Selection.Dropped | TMessagesProj/src/main/java/org/telegram/ui/GroupCreateActivity.java:199-201 | every chip the loop removes had lost its span |
| Selection.SweepExactWithoutAdjacentLosses | TMessagesProj/src/main/java/org/telegram/ui/GroupCreateActivity.java:197-203 | when no two neighbouring chips both lost their span, the sweep keeps exactly the chips still in the text |
| Selection.SweepOfIntactText | TMessagesProj/src/main/java/org/telegram/ui/GroupCreateActivity.java:197-203 | on a text that holds every chip, the sweep changes nothing |
| Selection.SweepPassesOverNeighbour | TMessagesProj/src/main/java/org/telegram/ui/GroupCreateActivity.java:197-203 | with chips 1 and 2 both erased, chip 1 is dropped and chip 2 stays in the list without a span |
| Chips.RenderAppend | TMessagesProj/src/main/java/org/telegram/ui/GroupCreateActivity.java:185-188 | `toString()` of two texts one after the other is the two strings one after the other |
| Chips.Render | TMessagesProj/src/main/java/org/telegram/ui/GroupCreateActivity.java:185-188 | `toString()` of the field: one character per slot, '<' for a chip's slot, the typed character otherwise |
| ContactSearch.LowerChar | TMessagesProj/src/main/java/org/telegram/ui/GroupCreateActivity.java:396 | an upper-case ASCII letter becomes its lower-case letter; every other character is kept |
| ContactSearch.StartsWith | TMessagesProj/src/main/java/org/telegram/ui/GroupCreateActivity.java:400 | `p` is a prefix of `s`: the empty string is a prefix of everything, and a prefix is never longer than the string |
| ContactSearch.StartsWithByCharacter | TMessagesProj/src/main/java/org/telegram/ui/GroupCreateActivity.java:400 | `p` is a prefix of `s` exactly when `s` is at least as long and agrees with `p` at every position of `p` |
| ContactSearch.Lower | TMessagesProj/src/main/java/org/telegram/ui/GroupCreateActivity.java:396-400 | `toLowerCase` character by character, leaving no upper-case ASCII letter |
| ContactSearch.LowerIdempotent | TMessagesProj/src/main/java/org/telegram/ui/GroupCreateActivity.java:396-400 | lowering an already lowered string changes nothing |
| ContactSearch.NameMatches | TMessagesProj/src/main/java/org/telegram/ui/GroupCreateActivity.java:400 | the filter test on the lowered first or last name; the empty query matches every name |
| ContactSearch.NameMatchesByCharacter | TMessagesProj/src/main/java/org/telegram/ui/GroupCreateActivity.java:400 | the filter test holds exactly when, character by character, the lowered first name or the lowered last name begins with the query |
| ContactSearch.Listed | TMessagesProj/src/main/java/org/telegram/ui/GroupCreateActivity.java:400-401 | a listed user matches the query and is never the client's own user; for the empty query every other user is listed |
| ContactSearch.Matching | TMessagesProj/src/main/java/org/telegram/ui/GroupCreateActivity.java:398-407 | every result matches the query by first- or last-name prefix, is not the client's own user, and is the record of some contact; there are no more results than contacts |
| ContactSearch.NamesFor | TMessagesProj/src/main/java/org/telegram/ui/GroupCreateActivity.java:404-405 | one highlighted name per result, at the same position |
| ContactSearch.ProcessSearch | TMessagesProj/src/main/java/org/telegram/ui/GroupCreateActivity.java:389-409 | an empty query gives two empty lists. Otherwise the loop yields exactly the matching users in contact order. The name list has the same length, with the name of each result at its position |
| ContactSearch.MatchingComplete | TMessagesProj/src/main/java/org/telegram/ui/GroupCreateActivity.java:398-407 | every contact that matches and is not the client is among the results |
| ContactSearch.MatchingAppend | TMessagesProj/src/main/java/org/telegram/ui/GroupCreateActivity.java:398-407 | results keep contact order: searching two consecutive parts of the contact list gives their results one after the other |
| ContactSearch.MatchingNarrows | TMessagesProj/src/main/java/org/telegram/ui/GroupCreateActivity.java:396-400 | a longer query finds only users that its prefix also finds |
| ContactSearch.TypedPrefixFindsUser | TMessagesProj/src/main/java/org/telegram/ui/GroupCreateActivity.java:396-401 | a contact whose first name starts with the typed text in any ASCII letter case ("JO" finds "John") is found unless it is the client |
| ListAdapterRules.SectionCount | TMessagesProj/src/main/java/org/telegram/ui/GroupCreateActivity.java:468-473 | in search mode: one section exactly when there are results (none for null or empty); otherwise one per contact section |
| ListAdapterRules.CountForSection | TMessagesProj/src/main/java/org/telegram/ui/GroupCreateActivity.java:476-482 | in search mode, the number of results (0 for null); otherwise the size of the requested section |
| ListAdapterRules.Flatten | TMessagesProj/src/main/java/org/telegram/ui/GroupCreateActivity.java:472-481 | the contacts of all sections in one list: a contact is in it exactly when it is in some section |
| ListAdapterRules.SearchRowsAreResults | TMessagesProj/src/main/java/org/telegram/ui/GroupCreateActivity.java:468-479 | in search mode the list has exactly one row per result |
| ListAdapterRules.ContactRowsAreContacts | TMessagesProj/src/main/java/org/telegram/ui/GroupCreateActivity.java:472-481 | outside search mode the list has exactly one row per contact of the sections |
| ListAdapterRules.ShowsDivider | TMessagesProj/src/main/java/org/telegram/ui/GroupCreateActivity.java:515-520 | a row inside its section shows the divider exactly when another row follows it |
| ListAdapterRules.OnlyLastRowLacksDivider | TMessagesProj/src/main/java/org/telegram/ui/GroupCreateActivity.java:516-520 | only one row of a section goes without a divider, and it is the last row |
| ListAdapterRules.DisplayName | TMessagesProj/src/main/java/org/telegram/ui/GroupCreateActivity.java:525-533 | the formatted name if non-empty; else the formatted "+"-prefixed phone if there is one; else the hidden-name string |
| ListAdapterRules.ChipLabel | TMessagesProj/src/main/java/org/telegram/ui/GroupCreateActivity.java:318-322 | a chip's label always ends in ", " |
| ListAdapterRules.DisplayNameNeverEmpty | TMessagesProj/src/main/java/org/telegram/ui/GroupCreateActivity.java:525-533 | with non-empty phone formatting and fallback string, no row is left without a name |
| ListAdapterRules.ChipLabelMatchesRow | TMessagesProj/src/main/java/org/telegram/ui/GroupCreateActivity.java:318-322 | a chip reads as the row's name plus ", " when the user has a name or a phone. Otherwise the chip is ", " and the row shows the hidden name |
| GroupCreate.DeletedText | TMessagesProj/src/main/java/org/telegram/ui/GroupCreateActivity.java:186-191 | the deleted text is non-empty exactly when the two indices form a non-empty range inside the old text. The caught exception leaves it empty |
| GroupCreate.Reconciles | TMessagesProj/src/main/java/org/telegram/ui/GroupCreateActivity.java:185-192 | the handler reconciles exactly when the text shrank and the caret indices form a non-empty range inside the old text |
| GroupCreate.TypedQuery | TMessagesProj/src/main/java/org/telegram/ui/GroupCreateActivity.java:213 | the query has no '<'; it is empty exactly when every slot is a chip's or a typed '<'; every other typed character occurs in it |
| GroupCreate.TypedQueryAppend | TMessagesProj/src/main/java/org/telegram/ui/GroupCreateActivity.java:213 | the query of two texts one after the other is their two queries one after the other, so order and count are kept |
| GroupCreate.TypedQuerySlot | TMessagesProj/src/main/java/org/telegram/ui/GroupCreateActivity.java:213 | one slot adds its character to the query unless it shows '<' |
| GroupCreate.DeselectKeepsTable | TMessagesProj/src/main/java/org/telegram/ui/GroupCreateActivity.java:251-256 | removing a selected user's key and chip keeps the selection table consistent |
| GroupCreate.DeselectOnRebuiltTable | TMessagesProj/src/main/java/org/telegram/ui/GroupCreateActivity.java:254-256 | on a rebuilt text, a selected user's chip is present, and deleting it yields the rebuilt text of the shorter list |
| GroupCreate.TableSize | TMessagesProj/src/main/java/org/telegram/ui/GroupCreateActivity.java:262 | the map has one entry per chip and at most 200 |
| GroupCreate.SelectKeepsTable | TMessagesProj/src/main/java/org/telegram/ui/GroupCreateActivity.java:262-267 | selecting an unselected user below the cap keeps the selection table consistent |
| GroupCreate.SweepKeepsTable | TMessagesProj/src/main/java/org/telegram/ui/GroupCreateActivity.java:197-203 | the sweep keeps the selection table consistent: the dropped chips' users leave the map with them |
| GroupCreate.SelectionBounded | TMessagesProj/src/main/java/org/telegram/ui/GroupCreateActivity.java:94-95 | on a valid screen the map and the chip list have the same size, at most 200 |
| GroupCreate.GroupCreateScreen.constructor | TMessagesProj/src/main/java/org/telegram/ui/GroupCreateActivity.java:154-155 | a new screen has nothing selected, an empty text, no search and no results, and is valid |
| GroupCreate.GroupCreateScreen.IsChecked | TMessagesProj/src/main/java/org/telegram/ui/GroupCreateActivity.java:509-513 | on a valid screen a row's check mark is on exactly when the user has a chip |
| GroupCreate.GroupCreateScreen.DoneSelection | TMessagesProj/src/main/java/org/telegram/ui/GroupCreateActivity.java:138-144 | "done" passes nothing when nothing is selected, and otherwise the map's keys. On a valid screen these are the chips' uids |
| GroupCreate.GroupCreateScreen.RebuildText | TMessagesProj/src/main/java/org/telegram/ui/GroupCreateActivity.java:277-283 | the text becomes the rebuilt text of the chip list and the caret goes to its end |
| GroupCreate.GroupCreateScreen.CreateAndPutChip | TMessagesProj/src/main/java/org/telegram/ui/GroupCreateActivity.java:339-348 | appends one chip with the user's uid and puts it in the map, then rebuilds the text. Nothing else changes |
| GroupCreate.GroupCreateScreen.RemoveChip | TMessagesProj/src/main/java/org/telegram/ui/GroupCreateActivity.java:251-259 | the key leaves the map. If the span is present, its slots leave the text, the chip leaves the list and the caret goes to the end. If not, list, text and caret are unchanged |
| GroupCreate.GroupCreateScreen.OnItemClick | TMessagesProj/src/main/java/org/telegram/ui/GroupCreateActivity.java:251-290 | outcome: at capacity (nothing changes), selected (one chip appended), deselected (key and chip removed, order kept), or a thrown delete when the span is gone. A change leaves search mode; a change while searching rebuilds the text. The invariant is kept, and a rebuilt text never throws |
| GroupCreate.GroupCreateScreen.LeaveSearch | TMessagesProj/src/main/java/org/telegram/ui/GroupCreateActivity.java:271-285 | both flags end false; if either was set, the text is rebuilt and the caret goes to its end |
| GroupCreate.GroupCreateScreen.ReconcileDeletedChips | TMessagesProj/src/main/java/org/telegram/ui/GroupCreateActivity.java:196-203 | the loop leaves the list that `LoopRun` gives and removes the map keys of the chips it removed. On a list without repeats this is the sweep |
| GroupCreate.GroupCreateScreen.TakeEdit | TMessagesProj/src/main/java/org/telegram/ui/GroupCreateActivity.java:183-211 | reconciles exactly when the text shrank and the deleted text is non-empty. After a reconciliation the search step runs only in search mode; otherwise it always runs. The table stays consistent |
| GroupCreate.GroupCreateScreen.ApplyQuery | TMessagesProj/src/main/java/org/telegram/ui/GroupCreateActivity.java:212-228 | a non-empty query schedules its search and sets both flags. An empty query nulls both result lists and clears both flags |
| GroupCreate.GroupCreateScreen.AfterTextChanged | TMessagesProj/src/main/java/org/telegram/ui/GroupCreateActivity.java:181-230 | the whole text-change handler: the new text and caret, the reconciliation, and the flags, results and scheduled query in each of its three cases. The invariant is kept |
| GroupCreate.GroupCreateScreen.RunPendingSearch | TMessagesProj/src/main/java/org/telegram/ui/GroupCreateActivity.java:364-424 | when the scheduled search fires, both published lists become the filter's results and names for its query; with nothing scheduled they stay. The flags are not touched and the invariant is kept |
| GroupCreate.SelectTwoThenEraseAll | TMessagesProj/src/main/java/org/telegram/ui/GroupCreateActivity.java:197-203 | select users 1 and 2, then erase the whole text in one edit: user 2 stays selected with its chip in the list, though the text is empty |
| GroupCreate.ErasedNeighbourBreaksDeselect | TMessagesProj/src/main/java/org/telegram/ui/GroupCreateActivity.java:251-255 | after that edit, tapping user 2 reaches `text.delete(-1, -1)` |

## Left out

- Chip rendering is not modelled: layout inflation, bitmaps and the font-metric overrides of `XImageSpan` (GroupCreateActivity.java:61-86, 314-337). It is graphics with no stateable logic; only the chip's label text is kept (`ChipLabel`).
- The search timer and the thread hops are abstracted (GroupCreateActivity.java:352-425). The live timer is the field `pendingQuery`: scheduling replaces it, and `RunPendingSearch` fires it. Interleavings of a firing search with other events are not modelled.
- The `searchDialogs(null)` branch (GroupCreateActivity.java:353-355) is not modelled, because this screen never passes `null`.
- Notification observers and `didReceivedNotification` (GroupCreateActivity.java:108-122, 427-448) are left out: they only refresh views.
- The action bar, the menu, navigation, keyboard hiding and the "members" subtitle (GroupCreateActivity.java:125-153, 204, 270, 293-304) are UI wiring. Only what "done" passes on is kept, as `DoneSelection`.
- `DoneSelection` gives the keys as a set: the order of a `HashMap` key set is unspecified.
- The foreign helpers `Utilities.formatName`, `PhoneFormat.format` and `LocaleController` are not part of this model. They are parameters of `DisplayName` and `ChipLabel`. `Utilities.generateSearchName` is kept as the term of its arguments (`HighlightedName`).
- Avatars, the status line and its colour (GroupCreateActivity.java:536-548) are left out as presentation.
- Resolving a tapped row to a user (GroupCreateActivity.java:241-250) is left out: `OnItemClick` takes the user id the row resolves to.
- `ignoreChange` (GroupCreateActivity.java:257-284) is not a field. The model's own text writes (rebuild, deselect) never run the text-change handler, which is what the flag achieves.
- `beforeTextChanged` (GroupCreateActivity.java:168-173) is not a separate method. `AfterTextChanged` receives the selection start before the edit and the selection end after it as parameters.
- ContactSearch.LowerChar: lowers only the ASCII letters. Java's `toLowerCase` also lowers other scripts, and its locale rules are not modelled.
- ContactSearch.ProcessSearch: requires every contact to have a user record whenever the query is non-empty. The Java loop dereferences the lookup without a check and would throw on a missing record; the model does not cover that crash.
- GroupCreate.GroupCreateScreen.OnItemClick: promises the invariant only when the deselect does not throw. When the span is missing, the Java code has already removed the map key before `delete` throws, so the key set and the chip list disagree afterwards; the model reproduces that state.
- GroupCreate.GroupCreateScreen.ReconcileDeletedChips: its result is stated as the sweep only for a list without repeated uids. That always holds on a valid screen; on any list it is stated through `LoopRun`.
- Chips.ChipText: its own contract states only the length. Which slots carry which chip is stated by `ChipTextSlots` and `ChipTextSpans`.
- Typed characters are modelled, but the span of a chip is the set of slots carrying it. Android's span-boundary rules when text is typed inside a chip are not modelled.

# rusty-notes: the note and tab state

rusty-notes is a small desktop note taker. Its window shows a sidebar listing the
notes (filtered by a search box), a bar of open tabs, and an editor for the current
note. Behind the widgets sits a small state: the list of notes, the open tabs, and
the current tab. A tab and the current tab hold a note's position in the note list.
So every change to the list must keep those positions meaningful.

This project models that state and the operations the user's clicks perform on it:
- create a note;
- open a note from the sidebar;
- select a tab;
- edit the current note;
- delete a note, which shifts the positions held by the tabs.

It also models the sidebar's search filter.

Modules:
- `Wrappers` (`wrappers.dfy`): `Option`.
- `Text` (`text.dfy`): the string operations the application uses. These are decimal formatting of a count, `trim_end_matches`, lowercasing and `contains`.
- `TabIndex` (`tab_index.dfy`): the pure index arithmetic of deleting a note. It covers removing one element, filtering the tabs, shifting the positions, and repairing the current tab.
- `Notes` (`notes.dfy`): the `Note` record, the search predicate, the title of a new note, and the class `AppState`. Its methods update `notes`, `openTabs` and `currentTab` in place.

`AppState.Valid()` is the invariant every method keeps. It has three parts:
- every tab is a valid note position, which the tab bar needs when it indexes the note list;
- no note is open in two tabs;
- the current tab is absent or one of the open tabs.

The program identifies notes by their position in the note list and appends new
notes unsorted. It has no rename, autosave, dirty flag, confirmation dialog, title
sanitising or Markdown preview, so none is modelled. Creating a note unwraps the
result of writing its file, so creation never reports a failure.

The title of a new note depends only on how many notes there are. So after a delete, the next new note can get the title and path of a note still in the list. `Notes.NewNoteCanReusePath` proves this for every list of `n` notes created one by one: deleting any note but the last, then creating one, repeats the last note's path. The code then writes an empty file over that path, but file writes are not modelled.

## Model

| member | source | states |
|---|---|---|
| `Text.Decimal` | src/main.rs:49 | the count is written as a non-empty run of decimal digits with no leading zero, ending in the count's last digit |
| `Text.ParseDecimalOfDecimal` | src/main.rs:49 | reading the formatted count back gives the count (round trip) |
| `Text.DecimalInjective` | src/main.rs:49 | different counts are formatted differently |
| `Text.TrimEndMatches` | src/main.rs:53 | the result is a prefix of the input that no longer ends with the pattern; an input not ending with it is returned unchanged |
| `Text.TrimEndMatchesRemovesCopies` | src/main.rs:53 | the input is the result followed by whole copies of the pattern, so trimming removes repeated copies of the pattern and nothing else |
| `Text.TrimEndMatchesOfAppend` | src/main.rs:53 | trimming `.md` off `t + ".md"`, where `t` does not end in `.md`, gives back `t` |
| `Text.LowerChar` | src/main.rs:72-75 | the folded character is never an upper-case ASCII letter; an upper-case letter moves to its lower-case partner, every other character is kept |
| `Text.Lower` | src/main.rs:72-75 | lowercasing keeps the length and folds each character on its own; `LowerIdempotent` and `LowerSlice` show that folding twice changes nothing and that it commutes with taking a slice |
| `Text.Contains` | src/main.rs:74-75 | true exactly when the needle occurs at some position of the haystack |
| `Text.ContainsLower` | src/main.rs:72-75 | a verbatim occurrence survives lowercasing both strings |
| `Notes.Matches` | src/main.rs:72-78 | an empty query lists every note; otherwise a note is listed iff the lowercased query occurs in its lowercased title or its lowercased content |
| `Notes.MatchesIgnoresQueryCase` | src/main.rs:72 | lowercasing the query first does not change which notes are listed |
| `Notes.MatchesVerbatim` | src/main.rs:72-78 | a note whose title or content holds the query verbatim is listed |
| `Notes.NewNote` | src/main.rs:49-56 | a new note has title `Note_<count+1>` (the `.md` trimmed), empty content and path `<notes dir>/Note_<count+1>.md` |
| `Notes.NewNoteTitlesDiffer` | src/main.rs:49 | different note counts give different new-note titles |
| `Notes.NewNoteCanReusePath` | src/main.rs:49-57 | for notes `Note_1` .. `Note_n` created in order, deleting any note but the last and then creating one gives the path of the last note, which is still in the list |
| `Notes.AppState.constructor` | src/main.rs:33-39 | start-up holds the scanned notes, no tabs, no current tab and an empty query, and satisfies the invariant |
| `Notes.AppState.SetSearchQuery` | src/main.rs:60 | the search text is replaced; notes and tabs are untouched |
| `Notes.AppState.CreateNote` | src/main.rs:48-58 | exactly one note, `NewNote` for the old count, is appended at the end; tabs and current tab unchanged; invariant kept |
| `Notes.AppState.VisibleNotes` | src/main.rs:71-79 | the listed positions are valid, strictly increasing, and position `i` is listed iff note `i` matches the query |
| `Notes.AppState.OpenNote` | src/main.rs:81-86 | `i` is appended to the tabs iff it was not open, so no duplicate appears; the current tab becomes `i`; notes unchanged; invariant kept |
| `Notes.AppState.TabStrip` | src/main.rs:124-130 | one label per tab, in order, with that tab's note title; a tab is marked iff it is current; at most one tab is marked, and one is iff there is a current tab |
| `Notes.AppState.SelectTab` | src/main.rs:127-128 | clicking an open tab makes it current; nothing else changes; invariant kept |
| `Notes.AppState.EditCurrentNote` | src/main.rs:135-140 | with a current tab, only that note's content is replaced (the lookup always finds it under the invariant); without one nothing changes |
| `Notes.AppState.DeleteNote` | src/main.rs:93-117 | removes exactly note `i`; tabs become the remapped tabs (filtered, then decremented by `ShiftDown`); each surviving tab shows the same note as before; the current tab is repaired (last tab if it was `i`, shifted otherwise, none if none is left); invariant kept |
| `TabIndex.RemoveAt` | src/main.rs:95 | element `i` is gone; earlier elements stay in place and later ones move down one position |
| `TabIndex.Without` | src/main.rs:98 | `retain` keeping the entries other than `i`: never longer than its input; `WithoutMembers` shows a value survives iff it was present and is not `i`; `WithoutAppend` shows the order of survivors is kept |
| `TabIndex.WithoutSkips` | src/main.rs:98 | no entry of the filtered tabs is `i` |
| `TabIndex.NoneSurvive` | src/main.rs:98 | when every tab is `i`, none survives the filter |
| `TabIndex.WithoutAppend` | src/main.rs:98 | the filter distributes over concatenation, so surviving tabs keep their relative order |
| `TabIndex.WithoutMembers` | src/main.rs:98 | a value survives the filter iff it was present and is not `i` |
| `TabIndex.WithoutNoDups` | src/main.rs:98 | filtering keeps a duplicate-free tab list duplicate-free |
| `TabIndex.Shift` | src/main.rs:99-103 | positions below `i` are unchanged and positions above `i` drop by one |
| `TabIndex.Unshift` | src/main.rs:99-103 | the inverse of the shift: never `i`, and shifting it gives back the argument |
| `TabIndex.ShiftAll` | src/main.rs:99-103 | the decrement applied to every entry: same length, each entry is the shift of the entry at the same place |
| `TabIndex.ShiftDown` | src/main.rs:99-103 | the `iter_mut` loop that decrements the entries past `i` one by one gives exactly `ShiftAll` of the kept tabs |
| `TabIndex.Remap` | src/main.rs:98-103 | the tabs after a delete have as many entries as the filtered tabs; `RemapUnshifts`, `RemapMembers`, `RemapValid` and `RemapRefines` give what they mean |
| `TabIndex.RemapUnshifts` | src/main.rs:98-103 | the j-th remapped tab unshifts to the j-th kept old tab |
| `TabIndex.ShiftUnshift` | src/main.rs:99-103 | shift and unshift are inverse between positions other than `i` and all positions |
| `TabIndex.RemapValid` | src/main.rs:98-103 | after deleting a valid `i`, valid duplicate-free tabs stay valid for the shorter list (which keeps the indexing at line 125 in bounds) and duplicate-free |
| `TabIndex.RemapKeeps` | src/main.rs:98-103 | a tab other than `i` survives, shifted |
| `TabIndex.RemapOrigin` | src/main.rs:98-103 | every tab after the delete comes from an old tab other than `i` |
| `TabIndex.RemapMembers` | src/main.rs:98-103 | both directions: `t != i` was a tab iff its shift is a tab afterwards; `t` is a tab afterwards iff its unshift was a tab before |
| `TabIndex.RemapRefines` | src/main.rs:94-103 | the j-th surviving tab designates, in the shortened list, the note that the j-th kept old tab designated in the old list |
| `TabIndex.LastTab` | src/main.rs:108 | absent iff there are no tabs, otherwise the last tab |
| `TabIndex.RepairCurrent` | src/main.rs:106-116 | with no note left or no current tab the result is absent; a current tab below `i` is kept; a current tab equal to `i` becomes the last remaining tab; `RepairCurrentSound` gives the rest |
| `TabIndex.RepairCurrentSound` | src/main.rs:106-116 | under the invariant, the repaired current tab is absent or open; it stays absent if it was; it is the last remaining tab if it was `i`; otherwise it designates the shifted position of the same note; with no note left it is absent and so are the tabs |
| `TabIndex.DeleteSound` | src/main.rs:93-117 | under the invariant, after deleting `i` the remapped tabs are valid for the shorter list and duplicate-free, the repaired current tab is absent or open, each surviving tab designates the same note, and the current-tab cases hold |

## Left out

- The widgets are not modelled: panels, buttons, text fields, labels and layout. Each click is a method call that takes the clicked position. `OpenNote` and `DeleteNote` take any valid position, not only one the filter lists.
- File system effects are not modelled (creating the notes directory, writing the new note's empty file, removing a deleted note's file, rewriting an edited note). They do not change the in-memory state.
- The start-up directory scan is not modelled: the `.md` filter, `file_stem` and `read_to_string`. The constructor takes the scanned notes as a parameter.
- The panics of `unwrap` on I/O errors are not modelled, and neither is `main`/`run_native`.
- `Text.Lower`: folds ASCII letters only, not Unicode `to_lowercase` (which can change a string's length).
- The per-frame structure of the UI is not modelled. Rendering and clicks in one frame are separate calls here.

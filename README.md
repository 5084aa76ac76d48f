# Library Parrotex: the library store

Library Parrotex is a desktop catalogue for a small home or school library.
Behind its screens sits a small store that the event handlers change in place:

- `ROWS`: the catalogue, one record per book, with the columns ID, ISBN, Author,
  Title, Genre, Location and State.
- `IDS`: one counter per location prefix, which is the first character of the
  Location.
- `CARDS`: the `"LIST"` of library cards, plus the loan entries
  `[ID, title, date]` for each card.
- `HELP`: the help text.
- Three datasets on disk, each with a live file and a single backup file:
  - the catalogue, `books.csv` together with `ids.json`;
  - the cards, `cards.json`;
  - the help text, `help.txt`.

The project models that store as the class `Library.Store`. Its fields are
the in-memory globals and the three disk datasets, each a `Slot` holding a live
value and an optional backup. There is one method per branch that changes the
store:

- first launch, `load`, `save`, `undo` and the help screen's Save;
- the ID allocator and `expander`;
- Add;
- the Delete and Edit branches of the edit dialog;
- Borrow, Return, and the card manager's Add and Delete.

Each method is proved against an exact description of the new state: which
fields change, to what, and which datasets are saved. The descriptions use
value-level functions:

- `AllocRows` and `AllocCards` for the allocator and the expander;
- `PopLoop` and `ReturnPass` for the Return loop;
- `Saved` and `Undone` for the backup swap;
- `SortRows` for `load`.

Two store invariants are proved about those functions:

- `StoreOk`: every ID in memory and in the catalogue files is accounted for by
  the counters, so IDs are unique, and the cards document is well formed.
- `LoansConsistent`: every borrowed row's card holds exactly one entry with its
  ID, and every entry belongs to a row lent on that card.

A `…Keeps` or `…Consistent` lemma shows that each branch preserves them.
`load` re-establishes `StoreOk` from the files. The class predicates `Valid`
(`StoreOk` over the fields) and `Consistent` (`LoansConsistent` over the
fields) are required and ensured by every method that changes the catalogue or
the cards. `Valid` is also established by the constructor, `Load`, `Undo` and
`EditHelp`.

The available and borrowed State tokens are the English table's `"L"` and `"B"`.
A lent book's State is `"B:" + card`. Python's `int(c)` test on a location
prefix is modelled by `Text.IsNumeric`, which is the ASCII digit test `'0'..'9'`.
The confirmation prompts are boolean parameters, and `date.today()` is a string
parameter.

Code and documentation disagree in a few places, and the model follows the code:

- The Return branch does not check that the book's State names the selected card.
- Return pops every matching entry while it iterates over the same list, so the
  entry after a popped one is skipped.
- The expander calls `save("c")` once per renamed borrowed row, so the cards
  backup keeps only the state before the last of those saves.
- `undo` writes the in-memory content as the backup, not the live file.

## Model

| member | source | states |
|---|---|---|
| Library.Store.constructor | LibraryParrotex.py:278-307 | first launch: a header-only catalogue, no counters, no cards, empty help, no backups; the store invariant and the loan agreement hold |
| Library.Store.Load | LibraryParrotex.py:310-346 | memory is reloaded from the live files: the header, the counters, the card list and loans, and the help text; rows are the non-empty data lines sorted by the sort column with ties by ID; the disk is unchanged; the invariant holds again, and the loan agreement carries over from the files |
| Library.DataRows | LibraryParrotex.py:325-331 | the reading loop yields exactly the non-empty lines after the header, in file order |
| Records.NonEmpty | LibraryParrotex.py:328-330 | at most as many rows as lines, every row is a line, and every non-empty line is kept |
| Records.NonEmptyAppend | LibraryParrotex.py:328-330 | reading lines in two parts gives the rows of each part in file order, and one line gives itself exactly when it is not blank |
| Records.SortRows | LibraryParrotex.py:345-346 | the rows come out ordered by (column, ID) and are a permutation of the rows read |
| Records.InsertRow | LibraryParrotex.py:345-346 | a stable insertion: the row goes after the last rows it does not precede, and the result holds the rows plus that row |
| Records.InsertKeepsSorted | LibraryParrotex.py:345-346 | inserting a row into sorted rows keeps them sorted |
| Records.InsertBeforeLast | LibraryParrotex.py:345-346 | a row that goes before the last row is placed among the others, and the last row stays after all of them |
| Records.InsertAfterLast | LibraryParrotex.py:345-346 | a row that does not go before the last row goes after every row |
| Records.SortSorted | LibraryParrotex.py:345-346 | sorting rows that are already in order leaves them unchanged |
| Records.SortSortedLast | LibraryParrotex.py:345-346 | a sorted sequence whose rows before the last are left in place is left in place whole |
| Records.SortKeepsDistinct | LibraryParrotex.py:345-346 | sorting keeps the ID keys distinct |
| Records.RowLessTrans | LibraryParrotex.py:345-346 | the (column, ID) order is transitive |
| Records.RowLessAsymmetric | LibraryParrotex.py:345-346 | the (column, ID) order is asymmetric |
| Records.RowLessIrreflexive | LibraryParrotex.py:345-346 | no row goes before itself |
| Records.RowLessTotal | LibraryParrotex.py:345-346 | any two rows are ordered unless they agree on the column and the ID |
| Text.LessTrans | LibraryParrotex.py:345-346 | Python's string `<` is transitive |
| Text.LessTotal | LibraryParrotex.py:345-346 | Python's string `<` is total |
| Text.LessIrreflexive | LibraryParrotex.py:345-346 | Python's string `<` is irreflexive |
| Library.LoadStep | LibraryParrotex.py:310-346 | reading and sorting keep the ID invariant and the loan agreement |
| Ids.SortKeepsIdsOk | LibraryParrotex.py:345-346 | the ID invariant does not depend on the row order |
| Ledger.ReorderKeepsConsistent | LibraryParrotex.py:345-346 | the loan agreement does not depend on the row order |
| Library.Store.Save | LibraryParrotex.py:455-528 | for each named dataset, the live content becomes the backup and memory is written live; the other datasets and memory are unchanged |
| Backup.Saved | LibraryParrotex.py:455-528 | one dataset's `save`: the live content becomes the backup and memory goes live |
| Library.SaveOk | LibraryParrotex.py:455-528 | saving well-formed memory over well-formed files keeps the store invariant |
| Library.SaveBooksOk | LibraryParrotex.py:482-500 | saving the catalogue alone over well-formed files keeps the store invariant |
| Library.ContentOk | LibraryParrotex.py:482-500 | what `save("b")` writes from accounted-for rows is a catalogue file `load` can read, with every row accounted for by the saved counters |
| Library.Store.Undo | LibraryParrotex.py:575-661 | with no backup, error U and nothing is written; otherwise the backup goes live and the in-memory content becomes the backup; the other datasets and memory are unchanged; the invariant holds |
| Backup.Undone | LibraryParrotex.py:575-661 | one dataset's `undo`: no backup gives the U notice with nothing written; otherwise the backup goes live and memory becomes the backup |
| Backup.UndoAfterSave | LibraryParrotex.py:575-661 | undo right after a save puts back the live content the save replaced |
| Backup.UndoNeedsBackup | LibraryParrotex.py:575-661 | undo fails exactly when there is no backup; when it succeeds, memory becomes the backup |
| Backup.UndoTwice | LibraryParrotex.py:575-661 | two undos swap twice, and with memory reloaded in between they restore the dataset |
| Library.Store.EditHelp | LibraryParrotex.py:1225-1229 | the help text becomes the new text and is saved; nothing else changes |
| Library.Store.Expand | LibraryParrotex.py:664-677 | the rows become `ExpandRows` at the counter's width, and the loans and cards file become the row-by-row pass `PatchFrom`; nothing else changes |
| Library.Store.Turn | LibraryParrotex.py:667-677 | after turn `i` the first `i + 1` rows are re-padded and the rest of the pass still gives what the whole pass gives; the other fields are unchanged |
| Library.ExpandDone | LibraryParrotex.py:667-677 | once the loop has run over every row, the rows and the cards are what the whole expander pass gives |
| Library.Store.ExpandAt | LibraryParrotex.py:667-677 | one loop turn re-pads row `i` and, if it is renamed and out on loan, renames its card's entries and saves the cards |
| Library.Store.Repad | LibraryParrotex.py:670-677 | a renamed row gets its padded ID, and if it is lent its card's entries follow |
| Library.Store.RenameCard | LibraryParrotex.py:673-677 | every entry of the card with the old ID gets the new ID, and the cards file is saved |
| Library.RenameOnCard | LibraryParrotex.py:674-676 | the inner loop renames exactly the entries carrying the old ID and keeps all others |
| Ids.PadId | LibraryParrotex.py:670-671 | a re-padded ID keeps its prefix and number and reaches the new width without truncation; other IDs are unchanged |
| Text.RJust | LibraryParrotex.py:671 | `rjust` pads on the left to the width, never truncates, and ends with the original string |
| Text.PadKeepsValue | LibraryParrotex.py:671 | zero-padding keeps a digit string's value and its digits |
| Ids.PadIdKeepsKeys | LibraryParrotex.py:664-677 | re-padding keeps apart exactly the IDs whose keys differed |
| Ids.ExpandedStep | LibraryParrotex.py:667-671 | each turn of the expander's loop re-pads one more row |
| Ids.ExpandedEnds | LibraryParrotex.py:667-671 | before the loop no row is re-padded, and after it all rows are |
| Ids.ExpandRows | LibraryParrotex.py:667-671 | what the expander does to the rows: every ID is re-padded by `PadId`, every other field and the row order are kept |
| Expander.PatchRowStep | LibraryParrotex.py:672-677 | handling row `i` renames exactly the entries that carry row `i`'s ID |
| Expander.PatchCardStep | LibraryParrotex.py:672-677 | handling row `i` renames, on each card, exactly the entries that carry row `i`'s ID |
| Expander.CountRenamed | LibraryParrotex.py:672-677 | when re-padding keeps an ID apart from the others on a card, the card holds the new ID as often as it held the old one |
| Expander.CountAlike | LibraryParrotex.py:672-677 | two cards holding two IDs at the same places hold them equally often |
| Expander.PatchFromPartial | LibraryParrotex.py:667-677 | the rest of the pass from row `i` completes the renaming of every entry |
| Expander.PatchRenamesAll | LibraryParrotex.py:664-677 | the pass leaves every loan entry renamed as its row was |
| Expander.ExpandKeepsConsistent | LibraryParrotex.py:664-677 | re-padded rows and renamed entries still agree |
| Expander.PatchFile | LibraryParrotex.py:664-677 | the cards file is left alone or holds the final loans live; either way it stays well formed |
| Expander.PatchRow | LibraryParrotex.py:672-677 | the expander on one row: a renamed row out on loan renames its card's entries and saves the cards; any other row changes nothing; the set of cards is kept |
| Expander.PatchFrom | LibraryParrotex.py:667-677 | the expander's pass over the cards from row `i` on, one `PatchRow` per row in order; the set of cards is kept |
| Text.Str | LibraryParrotex.py:880 | `str(n)` is a non-empty digit string of value `n` with no leading zero |
| Text.WidthStep | LibraryParrotex.py:877 | incrementing a counter adds a digit exactly when the new value is a power of ten of at least 10 |
| Text.WidthGrows | LibraryParrotex.py:877 | a counter's width never shrinks and grows by at most one digit per step |
| Ids.NewId | LibraryParrotex.py:880 | the issued ID is the prefix followed by the counter's digits, with the counter's value and width |
| Library.Store.Allocate | LibraryParrotex.py:866-880 | only `p`'s counter moves, by one from 0 if absent; the expander runs exactly when the counter gains a digit; the ID is `p + str(counter)` |
| Ids.Counter | LibraryParrotex.py:872-875 | `IDS[p]`, taken as 0 for a prefix that has never issued an ID |
| Ids.AllocRows | LibraryParrotex.py:866-880 | the allocator on the rows: when the bumped counter gains a digit the rows are re-padded to its width, otherwise they are unchanged |
| Library.AllocCards | LibraryParrotex.py:866-880 | the allocator on the cards: when the bumped counter gains a digit the expander's card pass runs, otherwise cards and file are unchanged |
| Ids.AllocKeepsIdsOk | LibraryParrotex.py:866-880 | after the allocator every row is accounted for under the bumped counters, keys stay distinct, and no row clashes with the new ID |
| Ids.AllocRowOk | LibraryParrotex.py:866-880 | the allocator's effect on one row keeps it accounted for and apart from the new ID |
| Ids.OtherPrefixOk | LibraryParrotex.py:668-669 | a row under another prefix is left as it was, stays accounted for, and cannot clash with the new ID |
| Ids.SamePrefixOk | LibraryParrotex.py:877-880 | when the counter keeps its width, a row under its prefix stays accounted for and its number is below the new ID's |
| Ids.PaddedRowOk | LibraryParrotex.py:668-671 | when the counter gains a digit, a row under its prefix is re-padded to the new width with its number kept, and stays apart from the new ID |
| Library.AllocOk | LibraryParrotex.py:866-880 | the allocator keeps the store invariant, including the cards file, and issues an ID no row has |
| Library.AllocConsistent | LibraryParrotex.py:866-880 | through the expander, borrowed rows and loan entries stay in step |
| Library.NewIdOk | LibraryParrotex.py:880 | the ID just issued is accounted for by the counters |
| Library.AllocKeepsOthers | LibraryParrotex.py:668-669 | the allocator leaves a row under another prefix where it was |
| Ids.IdsOkUnique | LibraryParrotex.py:866-880 | IDs accounted for by the counters are unique |
| Library.Clean | LibraryParrotex.py:733-736 | form text keeps its length, contains no comma, and keeps every other character |
| Text.IsNumeric | LibraryParrotex.py:868-870 | whether `int(c)` accepts a one-character prefix (also at LibraryParrotex.py:1311), taken as the ASCII digit test (see "## Left out") |
| Text.Replace | LibraryParrotex.py:733-736 | `replace` with single characters maps each character and leaves none of the replaced one |
| Library.Store.Add | LibraryParrotex.py:861-905 | error A5 for a blank field, else A4 for a numeric prefix, else the allocator runs, the new row on the shelf is appended with the cleaned fields, and the catalogue is saved; on an error nothing changes; the store invariant and the loan agreement are kept |
| Library.Store.Insert | LibraryParrotex.py:871-889 | the counter of the prefix goes up by one, the row is appended under the new ID after the expander's renaming, the catalogue is saved, and both invariants are kept |
| Library.ValidAllocSafe | LibraryParrotex.py:664-677 | in a store keeping both invariants every row has an ID and every renamed lent row names a known card, so the expander cannot fail |
| Library.AddStep | LibraryParrotex.py:871-889 | the state Add leaves keeps the store invariant and the loan agreement |
| Library.AddRowOk | LibraryParrotex.py:871-889 | the rows, counters and cards the Add branch leaves are well formed, over the unchanged catalogue file |
| Library.AddKeeps | LibraryParrotex.py:861-905 | Add keeps the store invariant |
| Library.AddConsistent | LibraryParrotex.py:861-905 | Add keeps borrowed rows and loan entries in step |
| Ids.AppendKeepsIdsOk | LibraryParrotex.py:882-889 | appending an accounted-for row with a fresh key keeps the ID invariant |
| Ledger.AppendKeepsConsistent | LibraryParrotex.py:882-889 | appending a row on the shelf keeps the loan agreement |
| Library.Store.DeleteBook | LibraryParrotex.py:1289-1298 | a lent book gives E1; a declined prompt changes nothing; otherwise exactly that row is removed and the catalogue saved; both invariants are kept |
| Ledger.RemoveAt | LibraryParrotex.py:1293 | `pop(j)` leaves the elements before `j` and shifts the rest down by one |
| Library.DeleteBookKeeps | LibraryParrotex.py:1289-1298 | Delete keeps the store invariant and the loan agreement |
| Ids.RemoveKeepsIdsOk | LibraryParrotex.py:1293 | dropping a row keeps the ID invariant |
| Ledger.DeleteRowKeepsConsistent | LibraryParrotex.py:1293 | dropping a row on the shelf keeps the loan agreement |
| Library.Edited | LibraryParrotex.py:1274-1278 | the form's values go into the row: the ISBN without hyphens, the other fields cleaned, ID and State kept |
| Text.Strip | LibraryParrotex.py:1274 | `replace("-", "")` drops every hyphen and keeps the other characters |
| Library.EditStatus | LibraryParrotex.py:1299-1333 | success exactly when the four fields are non-empty, a location change is only for a book on the shelf, and a changed prefix is not numeric; E4 exactly when a field is blank; E2 exactly when the fields are filled and a lent book's location changes |
| Library.Store.EditBook | LibraryParrotex.py:1274-1333 | the outcome is E4, E2, E3 or done, in that order; with the same prefix the row takes the form's values and keeps its ID; with a new prefix it gets a fresh ID from the allocator; the catalogue is saved; on an error nothing changes; both invariants are kept |
| Library.Store.Rewrite | LibraryParrotex.py:1328-1329 | row `k` becomes the edited row, the catalogue is saved, and both invariants are kept |
| Library.Store.Relocate | LibraryParrotex.py:1318-1330 | the counter of the new prefix goes up by one, the rows are renamed by the expander and row `k` takes the new ID, the catalogue is saved, and both invariants are kept |
| Library.RelocateStep | LibraryParrotex.py:1318-1330 | the state an edit under a new prefix leaves keeps the store invariant and the loan agreement |
| Library.RelocateRowOk | LibraryParrotex.py:1318-1330 | the rows, counters and cards an edit under a new prefix leaves are well formed, over the unchanged catalogue file |
| Library.EditKeeps | LibraryParrotex.py:1328-1329 | an edit keeping ID and prefix keeps the store invariant and the loan agreement |
| Library.KeepIdStep | LibraryParrotex.py:1328 | replacing a row with the same ID, State and prefix keeps both invariants |
| Library.RelocateKeeps | LibraryParrotex.py:1307-1330 | an edit under a new prefix keeps the store invariant |
| Library.RelocateConsistent | LibraryParrotex.py:1307-1330 | an edit under a new prefix keeps the loan agreement |
| Ids.ReplaceKeepsIdsOk | LibraryParrotex.py:1328 | replacing a row by an accounted-for row with a fresh key keeps the ID invariant |
| Ledger.ChangeRowKeepsConsistent | LibraryParrotex.py:1328 | replacing a row with the same ID and State, or a shelf row by a shelf row, keeps the loan agreement |
| Records.Find | LibraryParrotex.py:1099-1100 | the first row with that ID, or -1 when there is none |
| Library.Store.Locate | LibraryParrotex.py:1099-1100 | the scan over the rows finds the first row with that ID, or reports none |
| Library.FindPrefix | LibraryParrotex.py:1099-1100 | how the search result grows as the scan advances by one row |
| Records.DistinctKeysFind | LibraryParrotex.py:1099-1108 | with distinct keys, each row is the only one with its ID, so `ROWS.index(row)` is the row found |
| Library.BorrowStatus | LibraryParrotex.py:1091-1103 | the errors come in the order C1, C2, C3, C4; success exactly when a card and ID are given and the row is on the shelf |
| Library.Store.Borrow | LibraryParrotex.py:1091-1111 | on success the card gains `[ID, title, today]`, the row's State becomes borrowed on that card, and both datasets are saved; otherwise nothing changes; both invariants are kept |
| Library.Store.Lend | LibraryParrotex.py:1105-1110 | the card gains the entry, the row is marked borrowed on it, both datasets are saved, and both invariants are kept |
| Records.BorrowedBy | LibraryParrotex.py:1109 | a borrowed State differs from the shelf token and names its card |
| Records.CardOf | LibraryParrotex.py:673-676 | `state[2:]`, the card a borrowed State names |
| Ledger.BorrowedByInjective | LibraryParrotex.py:1109 | different cards give different borrowed States |
| Ids.SetFieldsKeepsIdsOk | LibraryParrotex.py:1109 | changing a row's State keeps the ID invariant |
| Library.BorrowKeeps | LibraryParrotex.py:1091-1111 | Borrow keeps the store invariant and the loan agreement |
| Ledger.BorrowKeepsConsistent | LibraryParrotex.py:1101-1110 | a shelf row lent on a card, with its entry appended, keeps the loan agreement |
| Ledger.AvailableHasNoEntry | LibraryParrotex.py:1101-1104 | in a consistent store a row on the shelf has no loan entry |
| Library.ReturnStatus | LibraryParrotex.py:1112-1134 | the errors come in the order C1, C2, C3, C5, C6; success exactly when the row is lent and the selected card holds an entry for it |
| Library.Store.Return | LibraryParrotex.py:1112-1134 | on success the row is back on the shelf, the card is what the pop loop leaves, and both datasets hold memory live; with one matching entry each dataset is saved exactly once; otherwise nothing changes; both invariants are kept |
| Library.Store.ReturnLoop | LibraryParrotex.py:1126-1133 | the loop over the live card list ends in the state `ReturnPass` gives, and it pops at least once exactly when an entry matched |
| Library.Visit | LibraryParrotex.py:1127-1133 | one turn of the Return loop on the live card list: a matching entry is popped at `index(entry)`, the row is put on the shelf and both datasets are saved; the set of cards is kept and the card never grows |
| Library.ReturnPass | LibraryParrotex.py:1126-1133 | the whole Return loop from position `i`, turn by turn over the list as it shrinks; the set of cards is kept |
| Library.Store.VisitEntry | LibraryParrotex.py:1127-1133 | one turn pops the first entry equal to the one met if it carries the ID, and otherwise changes nothing |
| Library.Store.PopEntry | LibraryParrotex.py:1129-1133 | one pop removes that entry, puts the row on the shelf, and saves both datasets |
| Library.PassLoans | LibraryParrotex.py:1126-1133 | the loop changes the cards exactly as `PopLoop` says |
| Library.PassCount | LibraryParrotex.py:1126-1133 | each pop removes one matching entry, and the loop pops exactly when a matching entry lies ahead |
| Library.PassRows | LibraryParrotex.py:1126-1133 | without a pop nothing changes; after one, the row is on the shelf |
| Library.PassLive | LibraryParrotex.py:1126-1133 | after a pop the live files hold the final memory |
| Library.PassBooksBak | LibraryParrotex.py:1126-1133 | after a pop the catalogue backup holds the content before the first pop, or the final content |
| Library.PassCardsBak | LibraryParrotex.py:1126-1133 | after a pop the cards backup holds the content before the first pop, or a document with the same names and keys |
| Library.PassOnce | LibraryParrotex.py:1126-1133 | with a single pop each dataset was saved exactly once |
| Ledger.IndexOf | LibraryParrotex.py:1129 | `index` gives the first position holding an equal element |
| Ledger.PopLoop | LibraryParrotex.py:1126-1133 | the Return loop's effect on the card: iterating by position over the list it pops from, each matching entry met is removed at its first index, so the entry after a popped one is skipped |
| Ledger.PopLoopSingle | LibraryParrotex.py:1126-1133 | with a single entry for the ID, the loop removes exactly that entry |
| Ledger.PopLoopNoMatch | LibraryParrotex.py:1126-1133 | entries that do not match are passed over without change |
| Ledger.PopLoopAppended | LibraryParrotex.py:1126-1133 | returning a book whose only entry was appended last gives back the card as it was before |
| Ledger.CountRemoveAt | LibraryParrotex.py:1129-1130 | a pop lowers the count of an ID by one exactly when the popped entry carries it |
| Ledger.CountNone | LibraryParrotex.py:1125-1127 | an ID has count 0 exactly when no entry carries it (error C6) |
| Library.ReturnStep | LibraryParrotex.py:1112-1134 | in a consistent store the card holds exactly one entry for a returned book, the row was lent on that card, and the result is consistent again |
| Ledger.ReturnKeepsConsistent | LibraryParrotex.py:1112-1134 | putting a lent row back on the shelf and removing its one entry keeps the loan agreement |
| Library.ReturnKeepsFiles | LibraryParrotex.py:1112-1134 | after the Return loop's pops and saves the store invariant still holds |
| Ledger.BorrowThenReturn | LibraryParrotex.py:1091-1134 | borrowing a book and returning it on the same card restores the rows and the cards |
| Library.Store.CreateCard | LibraryParrotex.py:1156-1167 | CM1 for a blank name, CM2 for a listed one; otherwise the name is appended to the list with an empty loan list and the cards are saved; both invariants are kept |
| Library.CreateCardKeeps | LibraryParrotex.py:1156-1167 | creating a card keeps the store invariant, including a list without repeats, and the loan agreement |
| Ledger.CreateCardKeepsConsistent | LibraryParrotex.py:1163-1164 | a new card with no loans keeps the loan agreement |
| Library.Store.DeleteCard | LibraryParrotex.py:1168-1183 | CM1, CM3, CM4 in that order, and a declined prompt changes nothing; otherwise the name leaves the list, its key is dropped and the cards are saved; both invariants are kept |
| Ledger.RemoveName | LibraryParrotex.py:1179 | `remove` drops the first occurrence; without repeats, exactly that name goes and all others stay |
| Ledger.RemoveAtMembers | LibraryParrotex.py:1179 | a pop keeps only elements of the list, and without repeats drops exactly the popped element |
| Library.DeleteCardKeeps | LibraryParrotex.py:1168-1183 | deleting a card with no loans keeps the store invariant and the loan agreement |
| Ledger.DeleteCardKeepsConsistent | LibraryParrotex.py:1179-1180 | dropping a card with no loans keeps the loan agreement |

## Left out

- The GUI is not modelled: windows, the screen loop, pop-ups, pagination and the navigation flags are display and event wiring.
- The language table and `lang.txt` are not modelled. The English State tokens `"L"` and `"B"` and the error codes are constants.
- Files are abstract values, so CSV and JSON encoding, byte contents, and the exceptions of a missing live file are not modelled. A missing backup is modelled: `Library.Store.Undo` answers U for it, as the program does when opening the backup raises FileNotFoundError (LibraryParrotex.py:575-661). The first-launch counter `"test"` is not a one-character prefix and is dropped.
- The ISBN lookup, the web scraping, the browser and the update check are not modelled: they are network and foreign calls. Add takes the ISBN the form holds as a parameter.
- Search is not modelled: its narrowing branch raises a TypeError and relies on Unicode lower-casing.
- Text.IsNumeric, Library.Store.Add and Library.Store.EditBook: `Text.IsNumeric` is the ASCII digit test, while Python's `int()` also accepts other Unicode decimal digits. For a location such as `"٣A"` (Arabic-Indic three) the program refuses with A4 in Add (LibraryParrotex.py:868-870, 902-903) and E3 in Edit (LibraryParrotex.py:1310-1316), whereas the model issues an ID under that prefix.
- A card named `"LIST"` is not modelled, because the names are a field of their own in the model. In the program that name reaches the name list itself:
  - Creating a card with that name overwrites the name list.
  - Borrow with the typed card text `"LIST"` appends `[ID, title, date]` to the name list, sets the State to `"B:LIST"` and saves (LibraryParrotex.py:1071, 1105-1110).
  - Return with `"LIST"` for a lent book loops over the names. Each `entry[0]` there is a single character and never equals the ID, so the program answers C6 (LibraryParrotex.py:1126-1127).
- Library.Store.EditBook and Library.Store.DeleteBook: the edit dialog takes the live row itself (`r = ROWS[row]`, LibraryParrotex.py:1244) and writes the form values into it (LibraryParrotex.py:1274-1278) before any branch runs, and it can loop after an error. The model takes one submission. After an edit error, after E1, or after a declined delete prompt the model leaves the row unchanged, whereas the program keeps the unsaved form values in memory until the next `load`.
- The add screen's remembered last location and the form reset after Add are not modelled, because they are display state.
- Consistency between datasets after undo is not modelled: undo of the catalogue does not revert the cards. The loan agreement is proved per branch, not across undo.
- Library.Store.Allocate: requires that the expander cannot crash, because the program raises IndexError on an empty ID and KeyError on an unknown card.
- Library.Store.Add, Library.Store.DeleteBook, Library.Store.EditBook, Library.Store.Borrow, Library.Store.Return, Library.Store.CreateCard and Library.Store.DeleteCard: require `Valid` and `Consistent`, which the program does not check. Every modelled branch except Undo keeps both. After an undo the reloaded memory need not be `Consistent` (see the undo line above), and these methods are not modelled from such a state. In such a store the expander cannot fail (`Library.ValidAllocSafe`), every location is non-empty and every listed card has a loan list.
- Library.Store.Borrow: requires that the selected card exists when the borrow goes ahead. The card box accepts typed text, and for any other name the program raises KeyError (for `"LIST"` see the line above).
- Library.Store.Return: requires that the selected card exists when the loop runs, for the same reason; `"LIST"` gives C6, as above.
- Library.Store.Return: when the card holds several entries for the book, each pop saves again. The backups are then stated only as the content before the first pop or the final content; the exact intermediate backups are not.
- Library.Store.Borrow: acts on the first row with the ID. The program's scan has no `break` and would act on every row with that ID, which the ID invariant rules out (`Ids.IdsOkUnique`).
- Library.Store.Return: acts on the first row with the ID, for the same reason.
- Library.Store.Load: the invariant is proved for files in the shape the program writes, with seven fields per non-empty line.
- The inner steps `Save`, `Expand`, `Turn`, `ExpandAt`, `Repad`, `RenameCard`, `Allocate`, `ReturnLoop`, `VisitEntry` and `PopEntry` do not restate `Valid`: the invariants hold again only when the branch that calls them ends, and that branch states them.
- The sort-column choice on the main screen is a parameter of the store: `sortCol` is read by `Load` and not otherwise changed.

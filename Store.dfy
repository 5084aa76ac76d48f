/// The library store: the catalog rows, the ID counters, the cards and the
/// help text as the program holds them in memory, the files they are saved
/// to, and one method per branch of the screens that change them.
module Library {
  import opened Text
  import opened Records
  import opened Backup
  import opened Ledger
  import opened Ids
  import opened Expander

  /** The catalog dataset: `books.csv` (header line first) and `ids.json`,
      which are always saved and undone together. */
  datatype BooksFile = BooksFile(csv: seq<seq<string>>, ids: map<char, nat>)

  /** The datasets `save` and `undo` know: "b", "c" and "h". */
  datatype Dataset = Books | Cards | Help

  /** The error codes the screens show. */
  datatype Code = A4 | A5 | E1 | E2 | E3 | E4 | C1 | C2 | C3 | C4 | C5 | C6 | CM1 | CM2 | CM3 | CM4 | U

  /** How a branch ended: it did its work, the confirmation was declined, or an error was shown. */
  datatype Outcome = Done | Declined | Failed(code: Code)

  /** The header row written to a new `books.csv`. */
  const Header: seq<string> := ["ID", "ISBN", "Author", "Title", "Subject", "Location", "State"]

  /** Form text as stored: commas become semicolons so the CSV stays intact. */
  function Clean(s: string): (r: string)
    ensures |r| == |s| && ',' !in r
    ensures forall i :: 0 <= i < |s| && s[i] != ',' ==> r[i] == s[i]
  {
    Replace(s, ',', ';')
  }

  /** A catalog file `load` can read and whose rows the counters account for. */
  predicate FileOk(b: BooksFile) {
    |b.csv| >= 1 && Shaped(b.csv[1..]) && IdsOk(NonEmpty(b.csv[1..]), b.ids)
  }

  /** The files on disk are well formed: the catalog, live and backup, and the cards. */
  predicate DiskOk(books: Slot<BooksFile>, cards: Slot<CardsDoc>) {
    FileOk(books.live) && (books.bak.Some? ==> FileOk(books.bak.value)) && SlotOk(cards)
  }

  /** The store invariant on plain values: memory and disk well formed. */
  predicate StoreOk(rows: seq<Record>, ids: map<char, nat>, names: seq<string>, loans: map<string, seq<Loan>>,
                    books: Slot<BooksFile>, cards: Slot<CardsDoc>) {
    IdsOk(rows, ids) && DocOk(CardsDoc(names, loans)) && DiskOk(books, cards)
  }

  /** When the counter for `p` is about to gain a digit, the expander can
      run: every row has an ID to take the first character of, and every
      renamed row out on loan names a known card. */
  predicate Expandable(rows: seq<Record>, ids: map<char, nat>, loans: map<string, seq<Loan>>, p: char) {
    var c := Counter(ids, p) + 1;
    Width(c - 1) != Width(c) ==> Keyed(rows) && CardsKnown(rows, loans.Keys, p, Width(c))
  }

  /** The errors of the Borrow branch, in the order they are checked. */
  function BorrowStatus(rows: seq<Record>, card: string, id: string): (o: Outcome)
    ensures o == Done <==> card != "" && id != "" && Find(rows, id) >= 0 && rows[Find(rows, id)][STATE] == Available
    ensures o == Failed(C3) <==> card != "" && id != "" && Find(rows, id) < 0
  {
    if card == "" then Failed(C1)
    else if id == "" then Failed(C2)
    else if Find(rows, id) < 0 then Failed(C3)
    else if rows[Find(rows, id)][STATE] != Available then Failed(C4)
    else Done
  }

  /** The errors of the Return branch, in the order they are checked. */
  function ReturnStatus(rows: seq<Record>, loans: map<string, seq<Loan>>, card: string, id: string): (o: Outcome)
    requires card != "" && id != "" && Find(rows, id) >= 0 && rows[Find(rows, id)][STATE] != Available ==> card in loans
    ensures o == Done <==> card != "" && id != "" && Find(rows, id) >= 0 && rows[Find(rows, id)][STATE] != Available
                           && Count(loans[card], id) > 0
  {
    if card == "" then Failed(C1)
    else if id == "" then Failed(C2)
    else if Find(rows, id) < 0 then Failed(C3)
    else if rows[Find(rows, id)][STATE] == Available then Failed(C5)
    else if Count(loans[card], id) == 0 then Failed(C6)
    else Done
  }

  /** Row `r` with the edit form's values: the ISBN without hyphens, the
      other fields cleaned; ID and State are kept. */
  function Edited(r: Record, isbn: string, author: string, title: string, genre: string, location: string): (e: Record)
    ensures e[ID] == r[ID] && e[STATE] == r[STATE] && e[LOCATION] == Clean(location)
    ensures e[ISBN] == Strip(isbn, '-') && e[AUTHOR] == Clean(author)
    ensures e[TITLE] == Clean(title) && e[GENRE] == Clean(genre)
  {
    r[ISBN := Strip(isbn, '-')][AUTHOR := Clean(author)][TITLE := Clean(title)][GENRE := Clean(genre)]
     [LOCATION := Clean(location)]
  }

  /** The errors of the Edit branch for row `r` and the new location `loc`. */
  function EditStatus(r: Record, author: string, title: string, genre: string, loc: string): (o: Outcome)
    ensures o == Done <==> author != "" && title != "" && genre != "" && loc != ""
                           && (loc != r[LOCATION] ==> r[STATE] == Available)
                           && (r[LOCATION] != "" && loc[0] != r[LOCATION][0] ==> !IsNumeric(loc[0]))
    ensures o == Failed(E4) <==> author == "" || title == "" || genre == "" || loc == ""
    ensures o == Failed(E2) <==> author != "" && title != "" && genre != "" && loc != ""
                                 && loc != r[LOCATION] && r[STATE] != Available
  {
    if author == "" || title == "" || genre == "" || loc == "" then Failed(E4)
    else if loc != r[LOCATION] && r[STATE] != Available then Failed(E2)
    else if r[LOCATION] != "" && loc[0] != r[LOCATION][0] && IsNumeric(loc[0]) then Failed(E3)
    else Done
  }

  class Store {
    /** The header row of the catalog. */
    var fields: seq<string>
    /** `ROWS`. */
    var rows: seq<Record>
    /** `IDS`. */
    var ids: map<char, nat>
    /** `CARDS["LIST"]`. */
    var names: seq<string>
    /** `CARDS[name]` for every card. */
    var loans: map<string, seq<Loan>>
    /** `HELP`. */
    var help: string
    /** `SORT`, the column the main screen orders by. */
    var sortCol: Column
    var books: Slot<BooksFile>
    var cards: Slot<CardsDoc>
    var helpFile: Slot<string>

    /** The catalog and card files are well formed, in memory and on disk, and
        every row ID in memory and on disk is accounted for by its counters. */
    ghost predicate Valid()
      reads this
    {
      StoreOk(rows, ids, names, loans, books, cards)
    }

    /** Borrowed rows and card entries agree (see `Ledger.LoansConsistent`). */
    ghost predicate Consistent()
      reads this
    {
      LoansConsistent(rows, loans)
    }

    /** `expander(p)` can run if the allocator for `p` calls it. */
    ghost predicate AllocSafe(p: char)
      reads this
    {
      Expandable(rows, ids, loans, p)
    }

    /** What `save("b")` writes. */
    function BooksContent(): BooksFile
      reads this
    {
      BooksFile([fields] + rows, ids)
    }

    /** What `save("c")` writes. */
    function CardsContent(): CardsDoc
      reads this
    {
      CardsDoc(names, loans)
    }


    /** The first launch: the files are created (a header-only catalog, no
        counters, no cards, empty help, no backups); memory is empty until
        the first `Load`. */
    constructor ()
      ensures Valid() && Consistent()
      ensures books == Slot(BooksFile([Header], map[]), None)
      ensures cards == Slot(CardsDoc([], map[]), None) && helpFile == Slot("", None)
      ensures rows == [] && ids == map[] && names == [] && loans == map[] && help == "" && sortCol == 0
    {
      fields := [];
      rows := [];
      ids := map[];
      names := [];
      loans := map[];
      help := "";
      sortCol := 0;
      books := Slot(BooksFile([Header], map[]), None);
      cards := Slot(CardsDoc([], map[]), None);
      helpFile := Slot("", None);
      new;
      assert books.live.csv[1..] == [];
    }

    /** `load`: read every live file; keep the non-empty catalog lines after
        the header; order the rows by the sort column, ties by ID. */
    method Load()
      requires Valid()
      modifies this
      ensures books == old(books) && cards == old(cards) && helpFile == old(helpFile) && sortCol == old(sortCol)
      ensures fields == books.live.csv[0] && ids == books.live.ids
      ensures rows == SortRows(NonEmpty(books.live.csv[1..]), sortCol)
      ensures names == cards.live.names && loans == cards.live.loans && help == helpFile.live
      ensures Valid()
      ensures LoansConsistent(NonEmpty(books.live.csv[1..]), cards.live.loans) ==> Consistent()
    {
      var lines := books.live.csv;
      fields := lines[0];
      var read := DataRows(lines);
      ids := books.live.ids;
      names := cards.live.names;
      loans := cards.live.loans;
      help := helpFile.live;
      LoadStep(lines, ids, sortCol, loans);
      rows := SortRows(read, sortCol);
    }

    /** `save(files)`: for each dataset named, the live content goes to the
        backup and the in-memory content is written live. */
    method Save(files: set<Dataset>)
      modifies this
      ensures books == if Books in files then Saved(old(books), BooksContent()) else old(books)
      ensures cards == if Cards in files then Saved(old(cards), CardsContent()) else old(cards)
      ensures helpFile == if Help in files then Saved(old(helpFile), help) else old(helpFile)
      ensures fields == old(fields) && rows == old(rows) && ids == old(ids) && names == old(names)
      ensures loans == old(loans) && help == old(help) && sortCol == old(sortCol)
    {
      if Books in files {
        var previous := books.live;
        books := books.(bak := Some(previous));
        books := books.(live := BooksContent());
      }
      if Cards in files {
        var previous := cards.live;
        cards := cards.(bak := Some(previous));
        cards := cards.(live := CardsContent());
      }
      if Help in files {
        var previous := helpFile.live;
        helpFile := helpFile.(bak := Some(previous));
        helpFile := helpFile.(live := help);
      }
    }

    /** `undo(d)`: with no backup the errU notice is shown and nothing is
        written; otherwise the backup goes live and the in-memory content
        (not the live file) becomes the backup. Memory is untouched until the
        next `Load`. */
    method Undo(d: Dataset) returns (o: Outcome)
      requires Valid()
      modifies this
      ensures d == Books ==> if old(books).bak.None? then o == Failed(U) && books == old(books)
                             else o == Done && Some(books) == Undone(old(books), BooksContent())
      ensures d == Cards ==> if old(cards).bak.None? then o == Failed(U) && cards == old(cards)
                             else o == Done && Some(cards) == Undone(old(cards), CardsContent())
      ensures d == Help ==> if old(helpFile).bak.None? then o == Failed(U) && helpFile == old(helpFile)
                            else o == Done && Some(helpFile) == Undone(old(helpFile), help)
      ensures d != Books ==> books == old(books)
      ensures d != Cards ==> cards == old(cards)
      ensures d != Help ==> helpFile == old(helpFile)
      ensures fields == old(fields) && rows == old(rows) && ids == old(ids) && names == old(names)
      ensures loans == old(loans) && help == old(help) && sortCol == old(sortCol)
      ensures Valid()
    {
      o := Done;
      if d == Books {
        if books.bak.None? {
          return Failed(U);
        }
        var restored := books.bak.value;
        books := books.(bak := Some(BooksContent()));
        books := books.(live := restored);
        ContentOk(fields, rows, ids);
      } else if d == Cards {
        if cards.bak.None? {
          return Failed(U);
        }
        var restored := cards.bak.value;
        cards := cards.(bak := Some(CardsContent()));
        cards := cards.(live := restored);
      } else {
        if helpFile.bak.None? {
          return Failed(U);
        }
        var restored := helpFile.bak.value;
        helpFile := helpFile.(bak := Some(help));
        helpFile := helpFile.(live := restored);
      }
    }

    /** The Save button of the help screen. */
    method EditHelp(text: string)
      requires Valid()
      modifies this
      ensures help == text && helpFile == Saved(old(helpFile), text)
      ensures fields == old(fields) && rows == old(rows) && ids == old(ids) && names == old(names)
      ensures loans == old(loans) && sortCol == old(sortCol) && books == old(books) && cards == old(cards)
      ensures Valid() && (old(Consistent()) ==> Consistent())
    {
      help := text;
      SaveOk(fields, rows, ids, names, loans, books, cards, {Help});
      Save({Help});
    }

    /** The `for row in ROWS: if row[0] == id` scan: the position of the
        first row with that ID, or -1. */
    method Locate(id: string) returns (k: int)
      ensures -1 <= k < |rows|
      ensures k >= 0 ==> rows[k][ID] == id
      ensures k < 0 ==> forall i :: 0 <= i < |rows| ==> rows[i][ID] != id
      ensures k == Find(rows, id)
    {
      k := -1;
      var i := 0;
      while i < |rows|
        invariant 0 <= i <= |rows|
        invariant k == if Find(rows[..i], id) < 0 then -1 else Find(rows, id)
        invariant -1 <= k < i
      {
        if rows[i][ID] == id && k < 0 {
          k := i;
        }
        i := i + 1;
        FindPrefix(rows, id, i);
      }
      assert rows[..i] == rows;
    }

    /** `expander(p)` with the counter `IDS[p]` already bumped: pad the rows
        under `p` to the counter's width and, for each renamed row out on
        loan, rename its card's entries and save the cards file. */
    method Expand(p: char)
      requires p in ids && Keyed(rows) && CardsKnown(rows, loans.Keys, p, Width(ids[p]))
      modifies this
      ensures fields == old(fields) && ids == old(ids) && names == old(names) && help == old(help)
      ensures sortCol == old(sortCol) && books == old(books) && helpFile == old(helpFile)
      ensures rows == ExpandRows(old(rows), p, Width(ids[p]))
      ensures Patch(loans, cards) == PatchFrom(Patch(old(loans), old(cards)), names, old(rows), p, Width(ids[p]), 0)
    {
      var w := Width(ids[p]);
      ghost var st0 := Patch(loans, cards);
      ExpandedEnds(rows, p, w);
      var i := 0;
      while i < |rows|
        invariant Expanding(old(rows), st0, names, p, w, i, rows, Patch(loans, cards))
        invariant Unexpanded() == old(Unexpanded())
      {
        Turn(i, p, w, old(rows), st0);
        i := i + 1;
      }
      ExpandDone(old(rows), st0, names, p, w, rows, Patch(loans, cards));
    }

    /** The fields the expander leaves alone. */
    function Unexpanded(): (seq<string>, map<char, nat>, seq<string>, string, Column, Slot<BooksFile>, Slot<string>)
      reads this
    {
      (fields, ids, names, help, sortCol, books, helpFile)
    }

    /** One turn of the expander's loop, stated as progress of the pass:
        after row `i` the first `i + 1` rows are re-padded and the rest of
        the pass still gives what the whole pass gives. */
    method Turn(i: int, p: char, w: nat, ghost rows0: seq<Record>, ghost st0: Patch)
      requires 0 <= i < |rows0| && Expanding(rows0, st0, names, p, w, i, rows, Patch(loans, cards))
      modifies this
      ensures Expanding(rows0, st0, names, p, w, i + 1, rows, Patch(loans, cards))
      ensures Unexpanded() == old(Unexpanded())
    {
      ExpandedStep(rows0, p, w, i);
      ExpandAt(i, p, w);
    }

    /** One step of the expander's loop: re-pad row `i` if it is under `p`
        and of the wrong width, and if it is out on loan rename its card's
        entries and save the cards file. */
    method ExpandAt(i: int, p: char, w: nat)
      requires 0 <= i < |rows|
      requires Renamed(rows[i][ID], p, w) && rows[i][STATE] != Available ==> CardOf(rows[i][STATE]) in loans
      modifies this
      ensures rows == old(rows)[i := old(rows)[i][ID := PadId(old(rows)[i][ID], p, w)]]
      ensures Patch(loans, cards) == PatchRow(Patch(old(loans), old(cards)), names, old(rows)[i], p, w)
      ensures fields == old(fields) && ids == old(ids) && names == old(names) && help == old(help)
      ensures sortCol == old(sortCol) && books == old(books) && helpFile == old(helpFile)
    {
      var id := rows[i][ID];
      if |id| >= 1 && id[0] == p && |id| - 1 != w {
        Repad(i, p, w);
      } else {
        assert rows[i][ID := PadId(id, p, w)] == rows[i];
      }
    }

    /** The body of the expander's `if` for a row that needs re-padding. */
    method Repad(i: int, p: char, w: nat)
      requires 0 <= i < |rows| && Renamed(rows[i][ID], p, w)
      requires rows[i][STATE] != Available ==> CardOf(rows[i][STATE]) in loans
      modifies this
      ensures rows == old(rows)[i := old(rows)[i][ID := PadId(old(rows)[i][ID], p, w)]]
      ensures Patch(loans, cards) == PatchRow(Patch(old(loans), old(cards)), names, old(rows)[i], p, w)
      ensures fields == old(fields) && ids == old(ids) && names == old(names) && help == old(help)
      ensures sortCol == old(sortCol) && books == old(books) && helpFile == old(helpFile)
    {
      var r := rows[i];
      var id := PadId(r[ID], p, w);
      rows := rows[i := r[ID := id]];
      if r[STATE] != Available {
        RenameCard(CardOf(r[STATE]), r[ID], id);
      }
    }

    /** The expander's inner loop over one card, then `save("c")`. */
    method RenameCard(c: string, from: string, to: string)
      requires c in loans
      modifies this
      ensures loans == old(loans)[c := RenameEntries(old(loans)[c], from, to)]
      ensures cards == Saved(old(cards), CardsDoc(names, loans))
      ensures fields == old(fields) && rows == old(rows) && ids == old(ids) && names == old(names)
      ensures help == old(help) && sortCol == old(sortCol) && books == old(books) && helpFile == old(helpFile)
    {
      var card := RenameOnCard(loans[c], from, to);
      loans := loans[c := card];
      Save({Cards});
    }

    /** The ID allocator shared by Add and Edit: create the counter at 0 if
        absent, bump it, run the expander when it gains a digit, and issue
        `p + str(counter)`. */
    method Allocate(p: char) returns (id: string)
      requires AllocSafe(p)
      modifies this
      ensures fields == old(fields) && names == old(names) && help == old(help)
      ensures sortCol == old(sortCol) && books == old(books) && helpFile == old(helpFile)
      ensures ids == old(ids)[p := Counter(old(ids), p) + 1]
      ensures id == NewId(p, ids[p])
      ensures rows == AllocRows(old(rows), old(ids), p)
      ensures Patch(loans, cards) == AllocCards(old(rows), old(ids), names, Patch(old(loans), old(cards)), p)
    {
      ghost var rows0, ids0, st0 := rows, ids, Patch(loans, cards);
      if p !in ids {
        ids := ids[p := 0];
      }
      ids := ids[p := ids[p] + 1];
      assert ids[p] == Counter(ids0, p) + 1;
      if Width(ids[p] - 1) != Width(ids[p]) {
        Expand(p);
        assert Patch(loans, cards) == PatchFrom(st0, names, rows0, p, Width(ids[p]), 0);
      }
      assert Patch(loans, cards) == AllocCards(rows0, ids0, names, st0, p);
      assert rows == AllocRows(rows0, ids0, p);
      id := [p] + Str(ids[p]);
    }

    /** The Add branch of the add screen. `isbn` is the ISBN the lookup put in
        the form (empty if none); the other fields are as typed. */
    method Add(isbn: string, author: string, title: string, genre: string, location: string)
      returns (o: Outcome, id: string)
      requires Valid() && Consistent()
      modifies this
      ensures Valid() && Consistent()
      ensures fields == old(fields) && names == old(names) && help == old(help)
      ensures sortCol == old(sortCol) && helpFile == old(helpFile)
      ensures o == if author == "" || title == "" || genre == "" || location == "" then Failed(A5)
                   else if IsNumeric(Clean(location)[0]) then Failed(A4)
                   else Done
      ensures o != Done ==> id == "" && rows == old(rows) && ids == old(ids) && books == old(books)
                            && loans == old(loans) && cards == old(cards)
      ensures o == Done ==>
        var p := Clean(location)[0];
        && ids == old(ids)[p := Counter(old(ids), p) + 1]
        && id == NewId(p, ids[p])
        && rows == AllocRows(old(rows), old(ids), p)
                   + [[id, isbn, Clean(author), Clean(title), Clean(genre), Clean(location), Available]]
        && books == Saved(old(books), BooksContent())
        && (ValidAllocSafe(old(rows), old(ids), old(loans), p);
            Patch(loans, cards) == AllocCards(old(rows), old(ids), names, Patch(old(loans), old(cards)), p))
    {
      id := "";
      if author == "" || title == "" || genre == "" || location == "" {
        return Failed(A5), id;
      }
      var loc := Clean(location);
      if IsNumeric(loc[0]) {
        return Failed(A4), id;
      }
      var book := [isbn, Clean(author), Clean(title), Clean(genre), loc];
      id := Insert(book);
      assert [id] + book + [Available] == [id, isbn, Clean(author), Clean(title), Clean(genre), loc, Available];
      o := Done;
    }

    /** Appends the validated book `book` (ISBN, author, title, genre,
        location) under a fresh ID for its location prefix and saves the
        books file. */
    method Insert(book: seq<string>) returns (id: string)
      requires Valid() && Consistent()
      requires |book| == 5 && book[4] != "" && !IsNumeric(book[4][0])
      modifies this
      ensures Valid() && Consistent()
      ensures fields == old(fields) && names == old(names) && help == old(help)
      ensures sortCol == old(sortCol) && helpFile == old(helpFile)
      ensures var p := book[4][0];
        && ids == old(ids)[p := Counter(old(ids), p) + 1]
        && id == NewId(p, ids[p])
        && rows == AllocRows(old(rows), old(ids), p) + [[id] + book + [Available]]
        && books == Saved(old(books), BooksContent())
        && (ValidAllocSafe(old(rows), old(ids), old(loans), p);
            Patch(loans, cards) == AllocCards(old(rows), old(ids), names, Patch(old(loans), old(cards)), p))
    {
      var p := book[4][0];
      ghost var rows0, ids0, loans0, books0, cards0 := rows, ids, loans, books, cards;
      ValidAllocSafe(rows, ids, loans, p);
      id := Allocate(p);
      var r: Record := [id] + book + [Available];
      rows := rows + [r];
      Save({Books});
      AddStep(fields, rows0, ids0, names, loans0, books0, cards0, r, rows, ids, loans, books, cards);
    }

    /** The Delete branch of the edit dialog for row `k`; `confirmed` is the
        answer to the Yes/No prompt. */
    method DeleteBook(k: int, confirmed: bool) returns (o: Outcome)
      requires Valid() && Consistent() && 0 <= k < |rows|
      modifies this
      ensures Valid() && Consistent()
      ensures o == if old(rows)[k][STATE] != Available then Failed(E1) else if confirmed then Done else Declined
      ensures o == Done ==> rows == RemoveAt(old(rows), k) && books == Saved(old(books), BooksContent())
      ensures o != Done ==> rows == old(rows) && books == old(books)
      ensures fields == old(fields) && ids == old(ids) && names == old(names) && loans == old(loans)
      ensures help == old(help) && sortCol == old(sortCol) && cards == old(cards) && helpFile == old(helpFile)
    {
      if rows[k][STATE] != Available {
        return Failed(E1);
      }
      if !confirmed {
        return Declined;
      }
      ghost var rows0, books0 := rows, books;
      rows := RemoveAt(rows, k);
      Save({Books});
      DeleteBookKeeps(fields, rows0, ids, names, loans, books0, cards, k);
      o := Done;
    }

    /** The Edit branch of the edit dialog for row `k`, with the form's
        values. A location whose first character differs gets a fresh ID
        from the allocator; otherwise the ID stays. */
    method EditBook(k: int, isbn: string, author: string, title: string, genre: string, location: string)
      returns (o: Outcome)
      requires Valid() && Consistent() && 0 <= k < |rows|
      modifies this
      ensures Valid() && Consistent()
      ensures o == EditStatus(old(rows)[k], Clean(author), Clean(title), Clean(genre), Clean(location))
      ensures o != Done ==> rows == old(rows) && ids == old(ids) && books == old(books)
                            && loans == old(loans) && cards == old(cards)
      ensures o == Done ==>
        var p := Clean(location)[0];
        var r := Edited(old(rows)[k], isbn, author, title, genre, location);
        && books == Saved(old(books), BooksContent())
        && if p == old(rows)[k][LOCATION][0] then
             rows == old(rows)[k := r] && ids == old(ids) && loans == old(loans) && cards == old(cards)
           else
             var c := Counter(old(ids), p) + 1;
             && ids == old(ids)[p := c]
             && rows == AllocRows(old(rows), old(ids), p)[k := r[ID := NewId(p, c)]]
             && (ValidAllocSafe(old(rows), old(ids), old(loans), p);
                 Patch(loans, cards) == AllocCards(old(rows), old(ids), names, Patch(old(loans), old(cards)), p))
      ensures fields == old(fields) && names == old(names) && help == old(help)
      ensures sortCol == old(sortCol) && helpFile == old(helpFile)
    {
      assert RowOk(rows[k], ids);
      var previous := rows[k][LOCATION];
      var r := Edited(rows[k], isbn, author, title, genre, location);
      if r[AUTHOR] == "" || r[TITLE] == "" || r[GENRE] == "" || r[LOCATION] == "" {
        return Failed(E4);
      }
      if r[LOCATION] != previous && r[STATE] != Available {
        return Failed(E2);
      }
      if r[LOCATION][0] != previous[0] {
        if IsNumeric(r[LOCATION][0]) {
          return Failed(E3);
        }
        Relocate(k, r);
        o := Done;
      } else {
        Rewrite(k, r);
        o := Done;
      }
    }

    /** The end of the Edit branch when the location keeps its first
        character: row `k` becomes `r` and the catalog is saved. */
    method Rewrite(k: int, r: Record)
      requires Valid() && Consistent() && 0 <= k < |rows|
      requires r[ID] == rows[k][ID] && r[STATE] == rows[k][STATE]
      requires r[LOCATION] != "" && rows[k][LOCATION] != "" && r[LOCATION][0] == rows[k][LOCATION][0]
      modifies this
      ensures Valid() && Consistent()
      ensures rows == old(rows)[k := r] && books == Saved(old(books), BooksContent())
      ensures fields == old(fields) && ids == old(ids) && names == old(names) && loans == old(loans)
      ensures help == old(help) && sortCol == old(sortCol) && cards == old(cards) && helpFile == old(helpFile)
    {
      ghost var rows0, books0 := rows, books;
      rows := rows[k := r];
      Save({Books});
      EditKeeps(fields, rows0, ids, names, loans, books0, cards, k, r);
    }

    /** The end of the Edit branch when the location's first character
        changes to a non-numeric one: the allocator runs and row `k` becomes
        `r` under the fresh ID. */
    method Relocate(k: int, r: Record)
      requires Valid() && Consistent()
      requires 0 <= k < |rows| && rows[k][LOCATION] != "" && r[LOCATION] != "" && !IsNumeric(r[LOCATION][0])
      requires rows[k][STATE] == Available && r[STATE] == Available
      requires r[LOCATION][0] != rows[k][LOCATION][0]
      modifies this
      ensures Valid() && Consistent()
      ensures var p := r[LOCATION][0];
        && ids == old(ids)[p := Counter(old(ids), p) + 1]
        && rows == AllocRows(old(rows), old(ids), p)[k := r[ID := NewId(p, ids[p])]]
        && (ValidAllocSafe(old(rows), old(ids), old(loans), p);
            Patch(loans, cards) == AllocCards(old(rows), old(ids), names, Patch(old(loans), old(cards)), p))
        && books == Saved(old(books), BooksContent())
      ensures fields == old(fields) && names == old(names) && help == old(help)
      ensures sortCol == old(sortCol) && helpFile == old(helpFile)
    {
      var p := r[LOCATION][0];
      ghost var rows0, ids0, loans0, books0, cards0 := rows, ids, loans, books, cards;
      ValidAllocSafe(rows, ids, loans, p);
      var id := Allocate(p);
      rows := rows[k := r[ID := id]];
      Save({Books});
      RelocateStep(fields, rows0, ids0, names, loans0, books0, cards0, k, r[ID := id], rows, ids, loans, books, cards);
    }

    /** The Borrow branch of the cards screen. `today` is `str(date.today())`. */
    method Borrow(card: string, id: string, today: string) returns (o: Outcome)
      requires Valid() && Consistent()
      requires BorrowStatus(rows, card, id) == Done ==> card in loans
      modifies this
      ensures Valid() && Consistent()
      ensures o == BorrowStatus(old(rows), card, id)
      ensures o != Done ==> rows == old(rows) && loans == old(loans) && books == old(books) && cards == old(cards)
      ensures o == Done ==>
        var k := Find(old(rows), id);
        && rows == old(rows)[k := old(rows)[k][STATE := BorrowedBy(card)]]
        && loans == old(loans)[card := old(loans)[card] + [Loan(id, old(rows)[k][TITLE], today)]]
        && books == Saved(old(books), BooksContent())
        && cards == Saved(old(cards), CardsContent())
      ensures fields == old(fields) && ids == old(ids) && names == old(names) && help == old(help)
      ensures sortCol == old(sortCol) && helpFile == old(helpFile)
    {
      if card == "" {
        return Failed(C1);
      }
      if id == "" {
        return Failed(C2);
      }
      var k := Locate(id);
      if k < 0 {
        return Failed(C3);
      }
      if rows[k][STATE] != Available {
        return Failed(C4);
      }
      Lend(card, k, today);
      o := Done;
    }

    /** The end of the Borrow branch for the available row `k`: the card
        gains an entry for the book, the row's State names the card, and
        both datasets are saved. */
    method Lend(card: string, k: int, today: string)
      requires Valid() && Consistent()
      requires 0 <= k < |rows| && rows[k][STATE] == Available && card in loans
      modifies this
      ensures Valid() && Consistent()
      ensures rows == old(rows)[k := old(rows)[k][STATE := BorrowedBy(card)]]
      ensures loans == old(loans)[card := old(loans)[card] + [Loan(old(rows)[k][ID], old(rows)[k][TITLE], today)]]
      ensures books == Saved(old(books), BooksContent()) && cards == Saved(old(cards), CardsContent())
      ensures fields == old(fields) && ids == old(ids) && names == old(names) && help == old(help)
      ensures sortCol == old(sortCol) && helpFile == old(helpFile)
    {
      var entry := Loan(rows[k][ID], rows[k][TITLE], today);
      ghost var rows0, loans0, books0, cards0 := rows, loans, books, cards;
      loans := loans[card := loans[card] + [entry]];
      rows := rows[k := rows[k][STATE := BorrowedBy(card)]];
      Save({Books, Cards});
      BorrowKeeps(fields, rows0, ids, names, loans0, books0, cards0, k, card, entry);
    }

    /** The Return branch of the cards screen. Every entry of the selected
        card with that ID is popped while the card is being iterated, each
        pop followed by a save; with the single entry a consistent store has,
        exactly that entry goes. The branch does not check that the row's
        State names the selected card. */
    method Return(card: string, id: string) returns (o: Outcome)
      requires Valid() && Consistent()
      requires card != "" && id != "" && Find(rows, id) >= 0 && rows[Find(rows, id)][STATE] != Available ==> card in loans
      modifies this
      ensures Valid() && Consistent()
      ensures o == ReturnStatus(old(rows), old(loans), card, id)
      ensures o != Done ==> rows == old(rows) && loans == old(loans) && books == old(books) && cards == old(cards)
      ensures o == Done ==>
        var k := Find(old(rows), id);
        && rows == old(rows)[k := old(rows)[k][STATE := Available]]
        && loans == old(loans)[card := PopLoop(old(loans)[card], 0, id)]
        && books.live == BooksContent() && (books.bak == Some(old(books).live) || books.bak == Some(books.live))
        && cards.live == CardsContent()
        && (cards.bak == Some(old(cards).live)
            || (cards.bak.Some? && cards.bak.value.names == names && cards.bak.value.loans.Keys == loans.Keys))
        && (Count(old(loans)[card], id) == 1 ==>
              books == Saved(old(books), BooksContent()) && cards == Saved(old(cards), CardsContent()))
      ensures fields == old(fields) && ids == old(ids) && names == old(names) && help == old(help)
      ensures sortCol == old(sortCol) && helpFile == old(helpFile)
    {
      if card == "" {
        return Failed(C1);
      }
      if id == "" {
        return Failed(C2);
      }
      var k := Locate(id);
      if k < 0 {
        return Failed(C3);
      }
      if rows[k][STATE] == Available {
        return Failed(C5);
      }
      ghost var e := Env(fields, ids, names, card, k, id);
      ghost var st0 := Pass(rows, loans, books, cards, 0);
      var popped := ReturnLoop(card, k, id);
      o := if popped then Done else Failed(C6);
      PassLoans(e, st0, 0);
      PassCount(e, st0, 0);
      PassRows(e, st0, 0);
      PassLive(e, st0, 0);
      PassBooksBak(e, st0, 0);
      PassCardsBak(e, st0, 0);
      PassOnce(e, st0, 0);
      CountNone(st0.loans[card], id);
      if popped {
        ReturnStep(st0.rows, ids, st0.loans, k, card, id);
        ReturnKeepsFiles(fields, st0.rows, ids, names, st0.loans, st0.books, st0.cards, k, rows, loans, books, cards);
      }
    }

    /** The `for entry in CARDS[card]` loop of the Return branch over the
        live list: each entry met whose ID is `id` is popped at
        `CARDS[card].index(entry)`, then row `k` is marked available and the
        catalog and the cards are saved. */
    method ReturnLoop(card: string, k: int, id: string) returns (popped: bool)
      requires card in loans && 0 <= k < |rows|
      modifies this
      ensures var r := ReturnPass(Env(fields, ids, names, card, k, id),
                                  Pass(old(rows), old(loans), old(books), old(cards), 0), 0);
              && rows == r.rows && loans == r.loans && books == r.books && cards == r.cards
              && (popped <==> r.pops > 0)
      ensures fields == old(fields) && ids == old(ids) && names == old(names) && help == old(help)
      ensures sortCol == old(sortCol) && helpFile == old(helpFile)
    {
      popped := false;
      ghost var e := Env(fields, ids, names, card, k, id);
      ghost var st0 := Pass(rows, loans, books, cards, 0);
      ghost var pops: nat := 0;
      var i := 0;
      while i < |loans[card]|
        invariant card in loans && 0 <= k < |rows|
        invariant fields == old(fields) && ids == old(ids) && names == old(names) && help == old(help)
        invariant sortCol == old(sortCol) && helpFile == old(helpFile)
        invariant popped <==> pops > 0
        invariant ReturnPass(e, Pass(rows, loans, books, cards, pops), i) == ReturnPass(e, st0, 0)
      {
        ghost var st := Pass(rows, loans, books, cards, pops);
        var hit := VisitEntry(card, k, id, i);
        if hit {
          popped := true;
          pops := pops + 1;
        }
        assert Pass(rows, loans, books, cards, pops) == Visit(e, st, i);
        i := i + 1;
      }
    }

    /** One turn of the Return loop at entry `i` of the card: if it carries
        `id`, pop the first entry equal to it. */
    method VisitEntry(card: string, k: int, id: string, i: int) returns (hit: bool)
      requires card in loans && 0 <= i < |loans[card]| && 0 <= k < |rows|
      modifies this
      ensures hit <==> old(loans)[card][i].id == id
      ensures !hit ==> rows == old(rows) && loans == old(loans) && books == old(books) && cards == old(cards)
      ensures hit ==>
        var s := old(loans)[card];
        && loans == old(loans)[card := RemoveAt(s, IndexOf(s, s[i]))]
        && rows == old(rows)[k := old(rows)[k][STATE := Available]]
        && books == Saved(old(books), BooksContent()) && cards == Saved(old(cards), CardsContent())
      ensures fields == old(fields) && ids == old(ids) && names == old(names) && help == old(help)
      ensures sortCol == old(sortCol) && helpFile == old(helpFile)
    {
      var entry := loans[card][i];
      hit := entry.id == id;
      if hit {
        var num := IndexOf(loans[card], entry);
        PopEntry(card, k, num);
      }
    }

    /** One pop of the Return branch: entry `num` of the card goes, row `k`
        is marked available, and the catalog and the cards are saved. */
    method PopEntry(card: string, k: int, num: int)
      requires card in loans && 0 <= num < |loans[card]| && 0 <= k < |rows|
      modifies this
      ensures rows == old(rows)[k := old(rows)[k][STATE := Available]]
      ensures loans == old(loans)[card := RemoveAt(old(loans)[card], num)]
      ensures books == Saved(old(books), BooksContent()) && cards == Saved(old(cards), CardsContent())
      ensures fields == old(fields) && ids == old(ids) && names == old(names) && help == old(help)
      ensures sortCol == old(sortCol) && helpFile == old(helpFile)
    {
      loans := loans[card := RemoveAt(loans[card], num)];
      rows := rows[k := rows[k][STATE := Available]];
      Save({Books, Cards});
    }

    /** The Add branch of the card manager. */
    method CreateCard(name: string) returns (o: Outcome)
      requires Valid() && Consistent()
      modifies this
      ensures Valid() && Consistent()
      ensures o == if name == "" then Failed(CM1) else if name in old(names) then Failed(CM2) else Done
      ensures o == Done ==> names == old(names) + [name] && loans == old(loans)[name := []]
                            && cards == Saved(old(cards), CardsContent())
      ensures o != Done ==> names == old(names) && loans == old(loans) && cards == old(cards)
      ensures fields == old(fields) && rows == old(rows) && ids == old(ids) && help == old(help)
      ensures sortCol == old(sortCol) && books == old(books) && helpFile == old(helpFile)
    {
      if name == "" {
        return Failed(CM1);
      }
      if name in names {
        return Failed(CM2);
      }
      ghost var names0, loans0, cards0 := names, loans, cards;
      names := names + [name];
      loans := loans[name := []];
      Save({Cards});
      CreateCardKeeps(fields, rows, ids, names0, loans0, books, cards0, name);
      o := Done;
    }

    /** The Delete branch of the card manager; `confirmed` is the answer to
        the Yes/No prompt. */
    method DeleteCard(name: string, confirmed: bool) returns (o: Outcome)
      requires Valid() && Consistent()
      modifies this
      ensures Valid() && Consistent()
      ensures o == if name == "" then Failed(CM1)
                   else if name !in old(names) then Failed(CM3)
                   else if old(loans)[name] != [] then Failed(CM4)
                   else if confirmed then Done
                   else Declined
      ensures o == Done ==> names == RemoveName(old(names), name) && loans == old(loans) - {name}
                            && cards == Saved(old(cards), CardsContent())
      ensures o != Done ==> names == old(names) && loans == old(loans) && cards == old(cards)
      ensures fields == old(fields) && rows == old(rows) && ids == old(ids) && help == old(help)
      ensures sortCol == old(sortCol) && books == old(books) && helpFile == old(helpFile)
    {
      if name == "" {
        return Failed(CM1);
      }
      if name !in names {
        return Failed(CM3);
      }
      if loans[name] != [] {
        return Failed(CM4);
      }
      if !confirmed {
        return Declined;
      }
      ghost var names0, loans0, cards0 := names, loans, cards;
      names := RemoveName(names, name);
      loans := loans - {name};
      Save({Cards});
      DeleteCardKeeps(fields, rows, ids, names0, loans0, books, cards0, name);
      o := Done;
    }
  }

  // ---- The Return loop as a function of the state it starts from -----------

  /** The part of the store the Return loop changes, and how many pops it has done. */
  datatype Pass = Pass(rows: seq<Record>, loans: map<string, seq<Loan>>, books: Slot<BooksFile>,
                       cards: Slot<CardsDoc>, pops: nat)

  /** What the Return loop reads and does not change: the header row, the
      counters, the card names, the selected card, the returned row and its ID. */
  datatype Env = Env(fields: seq<string>, ids: map<char, nat>, names: seq<string>, card: string, k: int, id: string)

  predicate Fits(e: Env, st: Pass) {
    e.card in st.loans && 0 <= e.k < |st.rows|
  }

  /** One turn of the loop at entry `i` of the card as it now is: on a match,
      pop the first entry equal to it, mark the row available and save both
      datasets. */
  function Visit(e: Env, st: Pass, i: nat): (r: Pass)
    requires Fits(e, st) && i < |st.loans[e.card]|
    ensures Fits(e, r) && r.loans.Keys == st.loans.Keys && |r.loans[e.card]| <= |st.loans[e.card]|
  {
    var cur := st.loans[e.card];
    if cur[i].id != e.id then st
    else
      var loans := st.loans[e.card := RemoveAt(cur, IndexOf(cur, cur[i]))];
      var rows := st.rows[e.k := st.rows[e.k][STATE := Available]];
      Pass(rows, loans, Saved(st.books, BooksFile([e.fields] + rows, e.ids)),
           Saved(st.cards, CardsDoc(e.names, loans)), st.pops + 1)
  }

  /** The loop from entry `i` on; Python's list iterator stops once its index
      reaches the current length. */
  function ReturnPass(e: Env, st: Pass, i: nat): (r: Pass)
    requires Fits(e, st)
    ensures Fits(e, r) && r.loans.Keys == st.loans.Keys
    decreases |st.loans[e.card]| - i
  {
    if i >= |st.loans[e.card]| then st else ReturnPass(e, Visit(e, st, i), i + 1)
  }

  /** On the cards the loop does exactly what `PopLoop` says. */
  lemma {:induction false} PassLoans(e: Env, st: Pass, i: nat)
    requires Fits(e, st)
    ensures ReturnPass(e, st, i).loans == st.loans[e.card := PopLoop(st.loans[e.card], i, e.id)]
    decreases |st.loans[e.card]| - i
  {
    var cur := st.loans[e.card];
    if i >= |cur| {
      assert st.loans[e.card := cur] == st.loans;
    } else {
      var st' := Visit(e, st, i);
      PassLoans(e, st', i + 1);
      assert st'.loans[e.card := PopLoop(st'.loans[e.card], i + 1, e.id)]
          == st.loans[e.card := PopLoop(cur, i, e.id)];
    }
  }

  /** Each pop removes one entry carrying the ID, and the loop pops at all
      exactly when such an entry is met from `i` on. */
  lemma {:induction false} PassCount(e: Env, st: Pass, i: nat)
    requires Fits(e, st)
    ensures var r := ReturnPass(e, st, i);
            && r.pops >= st.pops
            && Count(r.loans[e.card], e.id) + r.pops == Count(st.loans[e.card], e.id) + st.pops
            && (r.pops == st.pops <==> forall m :: i <= m < |st.loans[e.card]| ==> st.loans[e.card][m].id != e.id)
    decreases |st.loans[e.card]| - i
  {
    var cur := st.loans[e.card];
    if i < |cur| {
      var st' := Visit(e, st, i);
      assert ReturnPass(e, st, i) == ReturnPass(e, st', i + 1);
      PassCount(e, st', i + 1);
      if cur[i].id == e.id {
        CountRemoveAt(cur, IndexOf(cur, cur[i]), e.id);
      } else {
        assert st' == st;
      }
    }
  }

  /** Without a pop nothing changes; after one, the row is available. */
  lemma {:induction false} PassRows(e: Env, st: Pass, i: nat)
    requires Fits(e, st)
    ensures var r := ReturnPass(e, st, i);
            && r.pops >= st.pops
            && (r.pops == st.pops ==> r == st)
            && (r.pops > st.pops ==> r.rows == st.rows[e.k := st.rows[e.k][STATE := Available]])
    decreases |st.loans[e.card]| - i
  {
    var cur := st.loans[e.card];
    if i < |cur| {
      var st' := Visit(e, st, i);
      assert ReturnPass(e, st, i) == ReturnPass(e, st', i + 1);
      PassRows(e, st', i + 1);
      if cur[i].id == e.id {
        AvailableAgain(st'.rows, e.k);
      } else {
        assert st' == st;
      }
    }
  }

  /** After a pop, the saves leave the final memory content live. */
  lemma {:induction false} PassLive(e: Env, st: Pass, i: nat)
    requires Fits(e, st)
    ensures var r := ReturnPass(e, st, i);
            r.pops > st.pops ==>
              r.books.live == BooksFile([e.fields] + r.rows, e.ids) && r.cards.live == CardsDoc(e.names, r.loans)
    decreases |st.loans[e.card]| - i
  {
    var cur := st.loans[e.card];
    if i < |cur| {
      var st' := Visit(e, st, i);
      assert ReturnPass(e, st, i) == ReturnPass(e, st', i + 1);
      PassLive(e, st', i + 1);
      if cur[i].id == e.id {
        PassRows(e, st', i + 1);
      } else {
        assert st' == st;
      }
    }
  }

  /** After a pop, the catalog backup holds what was live before the first
      pop or, after several pops, the final content itself. */
  lemma {:induction false} PassBooksBak(e: Env, st: Pass, i: nat)
    requires Fits(e, st)
    ensures var r := ReturnPass(e, st, i);
            r.pops > st.pops ==> r.books.bak == Some(st.books.live) || r.books.bak == Some(r.books.live)
    decreases |st.loans[e.card]| - i
  {
    var cur := st.loans[e.card];
    if i < |cur| {
      var st' := Visit(e, st, i);
      assert ReturnPass(e, st, i) == ReturnPass(e, st', i + 1);
      if cur[i].id == e.id {
        var r := ReturnPass(e, st', i + 1);
        PassRows(e, st', i + 1);
        if r.pops > st'.pops {
          PassBooksBak(e, st', i + 1);
          PassLive(e, st', i + 1);
          AvailableAgain(st'.rows, e.k);
          assert st'.books.live == r.books.live;
        }
      } else {
        assert st' == st;
        PassBooksBak(e, st, i + 1);
      }
    }
  }

  /** After a pop, the cards backup holds what was live before the first pop
      or, after several pops, a document with the same card names and keys. */
  lemma {:induction false} PassCardsBak(e: Env, st: Pass, i: nat)
    requires Fits(e, st)
    ensures var r := ReturnPass(e, st, i);
            r.pops > st.pops ==>
              r.cards.bak == Some(st.cards.live)
              || (r.cards.bak.Some? && r.cards.bak.value.names == e.names && r.cards.bak.value.loans.Keys == r.loans.Keys)
    decreases |st.loans[e.card]| - i
  {
    var cur := st.loans[e.card];
    if i < |cur| {
      var st' := Visit(e, st, i);
      assert ReturnPass(e, st, i) == ReturnPass(e, st', i + 1);
      if cur[i].id == e.id {
        PassRows(e, st', i + 1);
        PassCardsBak(e, st', i + 1);
      } else {
        assert st' == st;
        PassCardsBak(e, st, i + 1);
      }
    }
  }

  /** With a single pop, each dataset was saved exactly once. */
  lemma {:induction false} PassOnce(e: Env, st: Pass, i: nat)
    requires Fits(e, st)
    ensures var r := ReturnPass(e, st, i);
            r.pops == st.pops + 1 ==> r.books == Saved(st.books, r.books.live) && r.cards == Saved(st.cards, r.cards.live)
    decreases |st.loans[e.card]| - i
  {
    var cur := st.loans[e.card];
    if i < |cur| {
      var st' := Visit(e, st, i);
      assert ReturnPass(e, st, i) == ReturnPass(e, st', i + 1);
      if cur[i].id == e.id {
        PassRows(e, st', i + 1);
      } else {
        assert st' == st;
        PassOnce(e, st, i + 1);
      }
    }
  }

  /** Marking an available row available again changes nothing. */
  lemma AvailableAgain(rows: seq<Record>, k: int)
    requires 0 <= k < |rows| && rows[k][STATE] == Available
    ensures rows[k := rows[k][STATE := Available]] == rows
  {
    assert rows[k][STATE := Available] == rows[k];
  }

  /** After the Return loop's pops and saves, the catalog and the cards, in
      memory and on disk, are still well formed. */
  lemma ReturnKeepsFiles(fields: seq<string>, rows0: seq<Record>, ids: map<char, nat>, names: seq<string>,
                         loans0: map<string, seq<Loan>>, books0: Slot<BooksFile>, cards0: Slot<CardsDoc>, k: int,
                         rows: seq<Record>, loans: map<string, seq<Loan>>, books: Slot<BooksFile>, cards: Slot<CardsDoc>)
    requires StoreOk(rows0, ids, names, loans0, books0, cards0)
    requires 0 <= k < |rows0| && rows == rows0[k := rows0[k][STATE := Available]] && loans.Keys == loans0.Keys
    requires books.live == BooksFile([fields] + rows, ids) && cards.live == CardsDoc(names, loans)
    requires books.bak == Some(books0.live) || books.bak == Some(books.live)
    requires cards.bak == Some(cards0.live) || (cards.bak.Some? && cards.bak.value.names == names
                                                && cards.bak.value.loans.Keys == loans.Keys)
    ensures StoreOk(rows, ids, names, loans, books, cards)
  {
    SetFieldsKeepsIdsOk(rows0, ids, k, rows[k]);
    ContentOk(fields, rows, ids);
    DocOkKeys(names, loans0, loans);
    if cards.bak != Some(cards0.live) {
      DocOkKeys(names, loans0, cards.bak.value.loans);
    }
  }

  /** Saving the catalog alone keeps the store invariant. */
  lemma SaveBooksOk(fields: seq<string>, rows: seq<Record>, ids: map<char, nat>, names: seq<string>,
                    loans: map<string, seq<Loan>>, books: Slot<BooksFile>, cards: Slot<CardsDoc>)
    requires IdsOk(rows, ids) && DocOk(CardsDoc(names, loans)) && DiskOk(books, cards)
    ensures StoreOk(rows, ids, names, loans, Saved(books, BooksFile([fields] + rows, ids)), cards)
  {
    ContentOk(fields, rows, ids);
  }

  /** Saving well-formed memory over well-formed files leaves the store well formed. */
  lemma SaveOk(fields: seq<string>, rows: seq<Record>, ids: map<char, nat>, names: seq<string>,
               loans: map<string, seq<Loan>>, books: Slot<BooksFile>, cards: Slot<CardsDoc>, files: set<Dataset>)
    requires IdsOk(rows, ids) && DocOk(CardsDoc(names, loans)) && DiskOk(books, cards)
    ensures StoreOk(rows, ids, names, loans,
                    if Books in files then Saved(books, BooksFile([fields] + rows, ids)) else books,
                    if Cards in files then Saved(cards, CardsDoc(names, loans)) else cards)
  {
    ContentOk(fields, rows, ids);
  }

  /** The cards document's shape depends on the card names only. */
  lemma DocOkKeys(names: seq<string>, a: map<string, seq<Loan>>, b: map<string, seq<Loan>>)
    requires DocOk(CardsDoc(names, a)) && a.Keys == b.Keys
    ensures DocOk(CardsDoc(names, b))
  {
    forall n | n in b ensures n in names {
      assert n in a.Keys;
    }
  }

  /** What `save("b")` writes from accounted-for rows is a readable catalog file. */
  lemma ContentOk(fields: seq<string>, rows: seq<Record>, ids: map<char, nat>)
    requires IdsOk(rows, ids)
    ensures FileOk(BooksFile([fields] + rows, ids))
  {
    NonEmptyOfRecords(rows);
    assert BooksFile([fields] + rows, ids).csv[1..] == rows;
  }

  /** The Borrow branch keeps the store invariant and the agreement
      between borrowed rows and card entries. */
  lemma BorrowKeeps(fields: seq<string>, rows: seq<Record>, ids: map<char, nat>, names: seq<string>,
                    loans: map<string, seq<Loan>>, books: Slot<BooksFile>, cards: Slot<CardsDoc>,
                    k: int, card: string, entry: Loan)
    requires StoreOk(rows, ids, names, loans, books, cards)
    requires 0 <= k < |rows| && rows[k][STATE] == Available && card in loans && entry.id == rows[k][ID]
    ensures var rows' := rows[k := rows[k][STATE := BorrowedBy(card)]];
            var loans' := loans[card := loans[card] + [entry]];
            && StoreOk(rows', ids, names, loans', Saved(books, BooksFile([fields] + rows', ids)),
                       Saved(cards, CardsDoc(names, loans')))
            && (LoansConsistent(rows, loans) ==> LoansConsistent(rows', loans'))
  {
    var rows' := rows[k := rows[k][STATE := BorrowedBy(card)]];
    var loans' := loans[card := loans[card] + [entry]];
    SetFieldsKeepsIdsOk(rows, ids, k, rows'[k]);
    DocOkKeys(names, loans, loans');
    SaveOk(fields, rows', ids, names, loans', books, cards, {Books, Cards});
    if LoansConsistent(rows, loans) {
      IdsOkUnique(rows, ids);
      BorrowKeepsConsistent(rows, loans, k, card, entry);
    }
  }

  /** Returning the book of row `k` in a consistent store: the card holds
      exactly one entry for it, and the pop loop's result with the row
      marked available is consistent again. */
  lemma ReturnStep(rows: seq<Record>, ids: map<char, nat>, loans: map<string, seq<Loan>>,
                   k: int, card: string, id: string)
    requires IdsOk(rows, ids) && LoansConsistent(rows, loans)
    requires 0 <= k < |rows| && rows[k][ID] == id && card in loans && Count(loans[card], id) > 0
    ensures rows[k][STATE] == BorrowedBy(card) && Count(loans[card], id) == 1
    ensures LoansConsistent(rows[k := rows[k][STATE := Available]], loans[card := PopLoop(loans[card], 0, id)])
  {
    IdsOkUnique(rows, ids);
    var s0 := loans[card];
    var m :| 0 <= m < |s0| && s0[m].id == id by {
      CountNone(s0, id);
    }
    ReturnKeepsConsistent(rows, loans, k, card, m);
    PopLoopSingle(s0, id, m);
  }

  /** The reading loop of `load`: the lines after the header that are not
      empty, in file order. */
  method DataRows(lines: seq<seq<string>>) returns (read: seq<Record>)
    requires |lines| >= 1 && Shaped(lines[1..])
    ensures read == NonEmpty(lines[1..])
  {
    read := [];
    var i := 1;
    while i < |lines|
      invariant 1 <= i <= |lines|
      invariant Shaped(lines[1..i]) && read == NonEmpty(lines[1..i])
    {
      assert lines[1..i + 1] == lines[1..i] + [lines[i]];
      assert lines[1..i + 1][..i - 1] == lines[1..i];
      if lines[i] != [] {
        read := read + [lines[i]];
      }
      i := i + 1;
    }
    assert lines[1..i] == lines[1..];
  }

  /** What `load` reads from a well-formed catalog file keeps the invariant,
      and sorting does not disturb the loan correspondence. */
  lemma LoadStep(lines: seq<seq<string>>, ids: map<char, nat>, col: Column, loans: map<string, seq<Loan>>)
    requires FileOk(BooksFile(lines, ids))
    ensures IdsOk(SortRows(NonEmpty(lines[1..]), col), ids)
    ensures LoansConsistent(NonEmpty(lines[1..]), loans) ==> LoansConsistent(SortRows(NonEmpty(lines[1..]), col), loans)
  {
    SortKeepsIdsOk(NonEmpty(lines[1..]), ids, col);
    if LoansConsistent(NonEmpty(lines[1..]), loans) {
      ReorderKeepsConsistent(NonEmpty(lines[1..]), SortRows(NonEmpty(lines[1..]), col), loans);
    }
  }

  /** The inner loop of `expander`: every entry of one card whose ID is
      `from` gets the ID `to`. */
  method RenameOnCard(card: seq<Loan>, from: string, to: string) returns (r: seq<Loan>)
    ensures r == RenameEntries(card, from, to)
  {
    r := card;
    var j := 0;
    while j < |r|
      invariant 0 <= j <= |r| == |card|
      invariant forall m :: 0 <= m < |r| ==>
        r[m] == if m < j && card[m].id == from then card[m].(id := to) else card[m]
    {
      if r[j].id == from {
        r := r[j := r[j].(id := to)];
      }
      j := j + 1;
    }
  }

  /** What the allocator for prefix `p` does to the cards: the expander's
      pass when the counter gains a digit, nothing otherwise. */
  function AllocCards(rows: seq<Record>, ids: map<char, nat>, names: seq<string>, st: Patch, p: char): Patch
    requires var c := Counter(ids, p) + 1;
             Width(c - 1) != Width(c) ==> CardsKnown(rows, st.loans.Keys, p, Width(c))
  {
    var c := Counter(ids, p) + 1;
    if Width(c - 1) != Width(c) then PatchFrom(st, names, rows, p, Width(c), 0) else st
  }

  /** The allocator keeps the store invariant and issues an ID no row has. */
  lemma AllocOk(rows: seq<Record>, ids: map<char, nat>, names: seq<string>, loans: map<string, seq<Loan>>,
                books: Slot<BooksFile>, cards: Slot<CardsDoc>, p: char)
    requires StoreOk(rows, ids, names, loans, books, cards) && !IsNumeric(p) && Expandable(rows, ids, loans, p)
    ensures var c := Counter(ids, p) + 1;
            var rows' := AllocRows(rows, ids, p);
            var st := AllocCards(rows, ids, names, Patch(loans, cards), p);
            && StoreOk(rows', ids[p := c], names, st.loans, books, st.file)
            && (forall i :: 0 <= i < |rows'| ==> !SameKey(rows'[i][ID], NewId(p, c)))
  {
    var c := Counter(ids, p) + 1;
    AllocKeepsIdsOk(rows, ids, p);
    if Width(c - 1) != Width(c) {
      PatchFile(Patch(loans, cards), names, rows, p, Width(c), 0);
    }
  }

  /** In a store that keeps both invariants the expander cannot fail: every
      row has an ID, and a lent row names a card the ledger has. */
  lemma ValidAllocSafe(rows: seq<Record>, ids: map<char, nat>, loans: map<string, seq<Loan>>, p: char)
    requires IdsOk(rows, ids) && LoansConsistent(rows, loans)
    ensures Keyed(rows) && Expandable(rows, ids, loans, p)
  {
    forall i | 0 <= i < |rows| ensures |rows[i][ID]| >= 1 {
      assert RowOk(rows[i], ids);
    }
    ConsistentCardsKnown(rows, loans, p, Width(Counter(ids, p) + 1));
  }

  /** Through the expander, the allocator keeps borrowed rows and card entries in step. */
  lemma AllocConsistent(rows: seq<Record>, ids: map<char, nat>, names: seq<string>, loans: map<string, seq<Loan>>,
                        cards: Slot<CardsDoc>, p: char)
    requires IdsOk(rows, ids) && LoansConsistent(rows, loans) && Expandable(rows, ids, loans, p)
    ensures LoansConsistent(AllocRows(rows, ids, p), AllocCards(rows, ids, names, Patch(loans, cards), p).loans)
  {
    var c := Counter(ids, p) + 1;
    if Width(c - 1) != Width(c) {
      var w := Width(c);
      ExpandKeepsConsistent(rows, loans, p, w);
      PatchRenamesAll(loans, rows, names, cards, p, w);
    }
  }

  /** The ID just issued for `p` is accounted for by the counters. */
  lemma NewIdOk(ids: map<char, nat>, p: char)
    requires p in ids && ids[p] >= 1 && !IsNumeric(p)
    ensures IdOk(NewId(p, ids[p]), ids)
  {
  }

  /** The allocator for `p` leaves a row under another prefix where it was. */
  lemma AllocKeepsOthers(rows: seq<Record>, ids: map<char, nat>, p: char, k: int)
    requires 0 <= k < |rows| && |rows[k][ID]| >= 1 && rows[k][ID][0] != p
    ensures |AllocRows(rows, ids, p)| == |rows| && AllocRows(rows, ids, p)[k] == rows[k]
  {
  }

  /** Editing a row's fields without changing its ID prefix keeps the invariants. */
  lemma KeepIdStep(rows: seq<Record>, ids: map<char, nat>, loans: map<string, seq<Loan>>, k: int, r: Record)
    requires IdsOk(rows, ids) && 0 <= k < |rows|
    requires r[ID] == rows[k][ID] && r[STATE] == rows[k][STATE]
    requires r[LOCATION] != "" && r[LOCATION][0] == rows[k][LOCATION][0]
    ensures IdsOk(rows[k := r], ids)
    ensures LoansConsistent(rows, loans) ==> LoansConsistent(rows[k := r], loans)
  {
    SetFieldsKeepsIdsOk(rows, ids, k, r[LOCATION := rows[k][LOCATION]]);
    assert RowOk(rows[k], ids);
    ReplaceKeepsIdsOk(rows, ids, k, r);
    if LoansConsistent(rows, loans) {
      ChangeRowKeepsConsistent(rows, loans, k, r);
    }
  }

  /** The Add branch keeps the store invariant: the new row `r` is on the
      shelf under the ID just issued for its location's first character. */
  lemma AddKeeps(fields: seq<string>, rows: seq<Record>, ids: map<char, nat>, names: seq<string>,
                 loans: map<string, seq<Loan>>, books: Slot<BooksFile>, cards: Slot<CardsDoc>, r: Record)
    requires StoreOk(rows, ids, names, loans, books, cards)
    requires r[LOCATION] != "" && !IsNumeric(r[LOCATION][0]) && r[STATE] == Available
    requires Expandable(rows, ids, loans, r[LOCATION][0])
    requires r[ID] == NewId(r[LOCATION][0], Counter(ids, r[LOCATION][0]) + 1)
    ensures var p := r[LOCATION][0];
            var ids' := ids[p := Counter(ids, p) + 1];
            var rows' := AllocRows(rows, ids, p) + [r];
            var st := AllocCards(rows, ids, names, Patch(loans, cards), p);
            StoreOk(rows', ids', names, st.loans, Saved(books, BooksFile([fields] + rows', ids')), st.file)
  {
    var p := r[LOCATION][0];
    var st := AllocCards(rows, ids, names, Patch(loans, cards), p);
    AddRowOk(rows, ids, names, loans, books, cards, r);
    SaveBooksOk(fields, AllocRows(rows, ids, p) + [r], ids[p := Counter(ids, p) + 1], names, st.loans, books, st.file);
  }

  /** The rows, counters and cards the Add branch leaves are well formed in
      memory, over the unchanged catalog file. */
  lemma AddRowOk(rows: seq<Record>, ids: map<char, nat>, names: seq<string>,
                 loans: map<string, seq<Loan>>, books: Slot<BooksFile>, cards: Slot<CardsDoc>, r: Record)
    requires StoreOk(rows, ids, names, loans, books, cards)
    requires r[LOCATION] != "" && !IsNumeric(r[LOCATION][0])
    requires Expandable(rows, ids, loans, r[LOCATION][0])
    requires r[ID] == NewId(r[LOCATION][0], Counter(ids, r[LOCATION][0]) + 1)
    ensures var p := r[LOCATION][0];
            var st := AllocCards(rows, ids, names, Patch(loans, cards), p);
            && IdsOk(AllocRows(rows, ids, p) + [r], ids[p := Counter(ids, p) + 1])
            && DocOk(CardsDoc(names, st.loans)) && DiskOk(books, st.file)
  {
    var p := r[LOCATION][0];
    var ids' := ids[p := Counter(ids, p) + 1];
    AllocOk(rows, ids, names, loans, books, cards, p);
    NewIdOk(ids', p);
    AppendKeepsIdsOk(AllocRows(rows, ids, p), ids', r);
  }


  /** `RelocateKeeps` and `RelocateConsistent` for the state the Edit branch
      leaves when the location's first character changes; `r` carries the
      fresh ID. */
  lemma RelocateStep(fields: seq<string>, rows0: seq<Record>, ids0: map<char, nat>, names: seq<string>,
                     loans0: map<string, seq<Loan>>, books0: Slot<BooksFile>, cards0: Slot<CardsDoc>,
                     k: int, r: Record, rows: seq<Record>, ids: map<char, nat>,
                     loans: map<string, seq<Loan>>, books: Slot<BooksFile>, cards: Slot<CardsDoc>)
    requires StoreOk(rows0, ids0, names, loans0, books0, cards0) && LoansConsistent(rows0, loans0)
    requires 0 <= k < |rows0| && rows0[k][LOCATION] != "" && r[LOCATION] != "" && !IsNumeric(r[LOCATION][0])
    requires rows0[k][STATE] == Available && r[STATE] == Available && r[LOCATION][0] != rows0[k][LOCATION][0]
    requires var p := r[LOCATION][0];
             && r[ID] == NewId(p, Counter(ids0, p) + 1)
             && ids == ids0[p := Counter(ids0, p) + 1]
             && rows == AllocRows(rows0, ids0, p)[k := r]
             && books == Saved(books0, BooksFile([fields] + rows, ids))
             && (ValidAllocSafe(rows0, ids0, loans0, p);
                 Patch(loans, cards) == AllocCards(rows0, ids0, names, Patch(loans0, cards0), p))
    ensures StoreOk(rows, ids, names, loans, books, cards) && LoansConsistent(rows, loans)
  {
    ValidAllocSafe(rows0, ids0, loans0, r[LOCATION][0]);
    RelocateKeeps(fields, rows0, ids0, names, loans0, books0, cards0, k, r);
    RelocateConsistent(rows0, ids0, names, loans0, cards0, k, r);
  }

  /** `AddKeeps` and `AddConsistent` for the state the Add branch leaves. */
  lemma AddStep(fields: seq<string>, rows0: seq<Record>, ids0: map<char, nat>, names: seq<string>,
                loans0: map<string, seq<Loan>>, books0: Slot<BooksFile>, cards0: Slot<CardsDoc>, r: Record,
                rows: seq<Record>, ids: map<char, nat>, loans: map<string, seq<Loan>>,
                books: Slot<BooksFile>, cards: Slot<CardsDoc>)
    requires StoreOk(rows0, ids0, names, loans0, books0, cards0) && LoansConsistent(rows0, loans0)
    requires r[LOCATION] != "" && !IsNumeric(r[LOCATION][0]) && r[STATE] == Available
    requires var p := r[LOCATION][0];
             && r[ID] == NewId(p, Counter(ids0, p) + 1)
             && ids == ids0[p := Counter(ids0, p) + 1]
             && rows == AllocRows(rows0, ids0, p) + [r]
             && books == Saved(books0, BooksFile([fields] + rows, ids))
             && (ValidAllocSafe(rows0, ids0, loans0, p);
                 Patch(loans, cards) == AllocCards(rows0, ids0, names, Patch(loans0, cards0), p))
    ensures StoreOk(rows, ids, names, loans, books, cards) && LoansConsistent(rows, loans)
  {
    ValidAllocSafe(rows0, ids0, loans0, r[LOCATION][0]);
    AddKeeps(fields, rows0, ids0, names, loans0, books0, cards0, r);
    AddConsistent(rows0, ids0, names, loans0, cards0, r);
  }

  /** The expander's loop after its first `i` rows: those rows are
      re-padded, and finishing the pass over the cards from row `i` on gives
      what the whole pass gives. */
  predicate Expanding(rows0: seq<Record>, st0: Patch, names: seq<string>, p: char, w: nat, i: nat,
                      rows: seq<Record>, st: Patch) {
    && i <= |rows0| == |rows| && rows == ExpandedTo(rows0, p, w, i)
    && CardsKnown(rows0, st0.loans.Keys, p, w) && st.loans.Keys == st0.loans.Keys
    && PatchFrom(st, names, rows0, p, w, i) == PatchFrom(st0, names, rows0, p, w, 0)
  }

  /** When the loop has run over every row, the rows and the cards are what
      the expander leaves. */
  lemma ExpandDone(rows0: seq<Record>, st0: Patch, names: seq<string>, p: char, w: nat,
                   rows: seq<Record>, st: Patch)
    requires Expanding(rows0, st0, names, p, w, |rows0|, rows, st)
    ensures rows == ExpandRows(rows0, p, w) && st == PatchFrom(st0, names, rows0, p, w, 0)
  {
    ExpandedEnds(rows0, p, w);
  }

  /** The Add branch keeps borrowed rows and card entries in step. */
  lemma AddConsistent(rows: seq<Record>, ids: map<char, nat>, names: seq<string>, loans: map<string, seq<Loan>>,
                      cards: Slot<CardsDoc>, r: Record)
    requires IdsOk(rows, ids) && LoansConsistent(rows, loans)
    requires r[LOCATION] != "" && r[STATE] == Available && Expandable(rows, ids, loans, r[LOCATION][0])
    ensures var p := r[LOCATION][0];
            LoansConsistent(AllocRows(rows, ids, p) + [r], AllocCards(rows, ids, names, Patch(loans, cards), p).loans)
  {
    var p := r[LOCATION][0];
    AllocConsistent(rows, ids, names, loans, cards, p);
    AppendKeepsConsistent(AllocRows(rows, ids, p), AllocCards(rows, ids, names, Patch(loans, cards), p).loans, r);
  }

  /** The Edit branch with a new location prefix keeps the store invariant:
      row `k` becomes `r` under the ID just issued for the new prefix. */
  lemma RelocateKeeps(fields: seq<string>, rows: seq<Record>, ids: map<char, nat>, names: seq<string>,
                      loans: map<string, seq<Loan>>, books: Slot<BooksFile>, cards: Slot<CardsDoc>,
                      k: int, r: Record)
    requires StoreOk(rows, ids, names, loans, books, cards)
    requires 0 <= k < |rows| && r[LOCATION] != "" && !IsNumeric(r[LOCATION][0]) && rows[k][LOCATION] != ""
    requires r[LOCATION][0] != rows[k][LOCATION][0] && Expandable(rows, ids, loans, r[LOCATION][0])
    requires r[ID] == NewId(r[LOCATION][0], Counter(ids, r[LOCATION][0]) + 1)
    ensures var p := r[LOCATION][0];
            var ids' := ids[p := Counter(ids, p) + 1];
            var rows' := AllocRows(rows, ids, p)[k := r];
            var st := AllocCards(rows, ids, names, Patch(loans, cards), p);
            StoreOk(rows', ids', names, st.loans, Saved(books, BooksFile([fields] + rows', ids')), st.file)
  {
    var p := r[LOCATION][0];
    var st := AllocCards(rows, ids, names, Patch(loans, cards), p);
    RelocateRowOk(rows, ids, names, loans, books, cards, k, r);
    SaveBooksOk(fields, AllocRows(rows, ids, p)[k := r], ids[p := Counter(ids, p) + 1], names, st.loans, books, st.file);
  }

  /** The rows, counters and cards an edit under a new prefix leaves are well
      formed in memory, over the unchanged catalog file. */
  lemma RelocateRowOk(rows: seq<Record>, ids: map<char, nat>, names: seq<string>,
                      loans: map<string, seq<Loan>>, books: Slot<BooksFile>, cards: Slot<CardsDoc>,
                      k: int, r: Record)
    requires StoreOk(rows, ids, names, loans, books, cards)
    requires 0 <= k < |rows| && r[LOCATION] != "" && !IsNumeric(r[LOCATION][0]) && rows[k][LOCATION] != ""
    requires r[LOCATION][0] != rows[k][LOCATION][0] && Expandable(rows, ids, loans, r[LOCATION][0])
    requires r[ID] == NewId(r[LOCATION][0], Counter(ids, r[LOCATION][0]) + 1)
    ensures var p := r[LOCATION][0];
            var st := AllocCards(rows, ids, names, Patch(loans, cards), p);
            && IdsOk(AllocRows(rows, ids, p)[k := r], ids[p := Counter(ids, p) + 1])
            && DocOk(CardsDoc(names, st.loans)) && DiskOk(books, st.file)
  {
    var p := r[LOCATION][0];
    var ids' := ids[p := Counter(ids, p) + 1];
    var rows1 := AllocRows(rows, ids, p);
    assert RowOk(rows[k], ids);
    AllocKeepsOthers(rows, ids, p, k);
    AllocOk(rows, ids, names, loans, books, cards, p);
    NewIdOk(ids', p);
    ReplaceKeepsIdsOk(rows1, ids', k, r);
  }


  /** The Edit branch with a new location prefix keeps borrowed rows and card
      entries in step: only a book on the shelf changes location. */
  lemma RelocateConsistent(rows: seq<Record>, ids: map<char, nat>, names: seq<string>,
                           loans: map<string, seq<Loan>>, cards: Slot<CardsDoc>, k: int, r: Record)
    requires IdsOk(rows, ids) && LoansConsistent(rows, loans)
    requires 0 <= k < |rows| && rows[k][STATE] == Available && r[STATE] == Available
    requires r[LOCATION] != "" && rows[k][LOCATION] != "" && r[LOCATION][0] != rows[k][LOCATION][0]
    requires Expandable(rows, ids, loans, r[LOCATION][0])
    ensures var p := r[LOCATION][0];
            LoansConsistent(AllocRows(rows, ids, p)[k := r], AllocCards(rows, ids, names, Patch(loans, cards), p).loans)
  {
    var p := r[LOCATION][0];
    assert RowOk(rows[k], ids);
    AllocKeepsOthers(rows, ids, p, k);
    AllocConsistent(rows, ids, names, loans, cards, p);
    ChangeRowKeepsConsistent(AllocRows(rows, ids, p), AllocCards(rows, ids, names, Patch(loans, cards), p).loans, k, r);
  }

  /** The Edit branch keeping the location prefix keeps the store invariant
      and the loan agreement: row `k` becomes `r` with the same ID and State. */
  lemma EditKeeps(fields: seq<string>, rows: seq<Record>, ids: map<char, nat>, names: seq<string>,
                  loans: map<string, seq<Loan>>, books: Slot<BooksFile>, cards: Slot<CardsDoc>,
                  k: int, r: Record)
    requires StoreOk(rows, ids, names, loans, books, cards)
    requires 0 <= k < |rows| && r[ID] == rows[k][ID] && r[STATE] == rows[k][STATE]
    requires r[LOCATION] != "" && rows[k][LOCATION] != "" && r[LOCATION][0] == rows[k][LOCATION][0]
    ensures var rows' := rows[k := r];
            && StoreOk(rows', ids, names, loans, Saved(books, BooksFile([fields] + rows', ids)), cards)
            && (LoansConsistent(rows, loans) ==> LoansConsistent(rows', loans))
  {
    KeepIdStep(rows, ids, loans, k, r);
    SaveBooksOk(fields, rows[k := r], ids, names, loans, books, cards);
  }

  /** The Delete branch keeps the store invariant and, since only a book on
      the shelf can go, the loan agreement. */
  lemma DeleteBookKeeps(fields: seq<string>, rows: seq<Record>, ids: map<char, nat>, names: seq<string>,
                        loans: map<string, seq<Loan>>, books: Slot<BooksFile>, cards: Slot<CardsDoc>, k: int)
    requires StoreOk(rows, ids, names, loans, books, cards)
    requires 0 <= k < |rows| && rows[k][STATE] == Available
    ensures var rows' := RemoveAt(rows, k);
            && StoreOk(rows', ids, names, loans, Saved(books, BooksFile([fields] + rows', ids)), cards)
            && (LoansConsistent(rows, loans) ==> LoansConsistent(rows', loans))
  {
    RemoveKeepsIdsOk(rows, ids, k);
    SaveBooksOk(fields, RemoveAt(rows, k), ids, names, loans, books, cards);
    if LoansConsistent(rows, loans) {
      DeleteRowKeepsConsistent(rows, loans, k);
    }
  }

  /** Creating a card with a new, non-empty name keeps the store invariant
      and the loan agreement. */
  lemma CreateCardKeeps(fields: seq<string>, rows: seq<Record>, ids: map<char, nat>, names: seq<string>,
                        loans: map<string, seq<Loan>>, books: Slot<BooksFile>, cards: Slot<CardsDoc>, name: string)
    requires StoreOk(rows, ids, names, loans, books, cards) && name !in names
    ensures var names', loans' := names + [name], loans[name := []];
            && StoreOk(rows, ids, names', loans', books, Saved(cards, CardsDoc(names', loans')))
            && (LoansConsistent(rows, loans) ==> LoansConsistent(rows, loans'))
  {
    var names', loans' := names + [name], loans[name := []];
    assert name !in loans;
    assert DocOk(CardsDoc(names', loans')) by {
      forall i, j | 0 <= i < j < |names'| ensures names'[i] != names'[j] {
        if j == |names| {
          assert names'[i] == names[i];
        } else {
          assert names'[i] == names[i] && names'[j] == names[j];
        }
      }
    }
    SaveOk(fields, rows, ids, names', loans', books, cards, {Cards});
    if LoansConsistent(rows, loans) {
      CreateCardKeepsConsistent(rows, loans, name);
    }
  }

  /** Deleting a card with no loans keeps the store invariant and the loan agreement. */
  lemma DeleteCardKeeps(fields: seq<string>, rows: seq<Record>, ids: map<char, nat>, names: seq<string>,
                        loans: map<string, seq<Loan>>, books: Slot<BooksFile>, cards: Slot<CardsDoc>, name: string)
    requires StoreOk(rows, ids, names, loans, books, cards) && name in names && loans[name] == []
    ensures var names', loans' := RemoveName(names, name), loans - {name};
            && StoreOk(rows, ids, names', loans', books, Saved(cards, CardsDoc(names', loans')))
            && (LoansConsistent(rows, loans) ==> LoansConsistent(rows, loans'))
  {
    var names', loans' := RemoveName(names, name), loans - {name};
    SaveOk(fields, rows, ids, names', loans', books, cards, {Cards});
    if LoansConsistent(rows, loans) {
      DeleteCardKeepsConsistent(rows, loans, name);
    }
  }

  /** How `Find` on a prefix grows by one row. */
  lemma FindPrefix(rows: seq<Record>, id: string, i: int)
    requires 0 < i <= |rows|
    ensures Find(rows[..i], id) == if Find(rows[..i - 1], id) >= 0 then Find(rows[..i - 1], id)
                                   else if rows[i - 1][ID] == id then i - 1 else -1
    ensures Find(rows[..i], id) >= 0 ==> Find(rows[..i], id) == Find(rows, id)
  {
    var s, t := rows[..i - 1], rows[..i];
    var a := Find(s, id);
    if a >= 0 {
      assert t[a] == s[a];
      forall j | 0 <= j < a ensures t[j][ID] != id { assert t[j] == s[j]; }
      FindFirst(t, id, a);
    } else if rows[i - 1][ID] == id {
      forall j | 0 <= j < i - 1 ensures t[j][ID] != id { assert t[j] == s[j]; }
      FindFirst(t, id, i - 1);
    } else {
      forall j | 0 <= j < i ensures t[j][ID] != id {
        if j < i - 1 { assert t[j] == s[j]; }
      }
    }
    var b := Find(t, id);
    if b >= 0 {
      assert rows[b] == t[b];
      forall j | 0 <= j < b ensures rows[j][ID] != id { assert rows[j] == t[j]; }
      FindFirst(rows, id, b);
    }
  }

  /** A row whose ID is `id`, with none before it, is the one `Find` returns. */
  lemma FindFirst(rows: seq<Record>, id: string, k: int)
    requires 0 <= k < |rows| && rows[k][ID] == id
    requires forall j :: 0 <= j < k ==> rows[j][ID] != id
    ensures Find(rows, id) == k
  {
  }
}

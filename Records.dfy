/// Book records as the catalog file stores them, the loan entries a card
/// holds, the two state tokens, and the row order `load` produces.
module Records {
  import opened Text

  /** A catalog row `[ID, ISBN, Author, Title, Genre, Location, State]`. */
  type Record = r: seq<string> | |r| == 7 witness ["", "", "", "", "", "", ""]

  /** A column index of a catalog row. */
  type Column = c: nat | c < 7

  const ID: Column := 0
  const ISBN: Column := 1
  const AUTHOR: Column := 2
  const TITLE: Column := 3
  const GENRE: Column := 4
  const LOCATION: Column := 5
  const STATE: Column := 6

  /** The state token of a book on the shelf. */
  const Available := "L"
  /** The state token of a lent book; the state is this token, ':' and the card. */
  const BorrowedToken := "B"

  /** Python's `state[2:]`: the card name a borrowed state carries. */
  function CardOf(state: string): string {
    if |state| >= 2 then state[2..] else ""
  }

  /** The state of a book lent on `card`. */
  function BorrowedBy(card: string): (s: string)
    ensures s != Available
    ensures CardOf(s) == card
  {
    BorrowedToken + ":" + card
  }

  /** One entry of a card: `[ID, title, date]`. */
  datatype Loan = Loan(id: string, title: string, date: string)

  /** The first row whose ID is `id`, or -1 (the scan `for row in ROWS`). */
  function Find(rows: seq<Record>, id: string): (k: int)
    ensures -1 <= k < |rows|
    ensures k >= 0 ==> rows[k][ID] == id
    ensures forall j :: 0 <= j < |rows| && (k < 0 || j < k) ==> rows[j][ID] != id
  {
    if rows == [] then -1
    else if rows[0][ID] == id then 0
    else
      var k := Find(rows[1..], id);
      if k < 0 then -1 else k + 1
  }

  /** Two IDs with the same prefix character and the same number after it. */
  predicate SameKey(a: string, b: string) {
    |a| >= 1 && |b| >= 1 && a[0] == b[0] && Value(a[1..]) == Value(b[1..])
  }

  /** No two rows have IDs with the same prefix and number. */
  predicate DistinctKeys(rows: seq<Record>) {
    forall i, j :: 0 <= i < j < |rows| ==> !SameKey(rows[i][ID], rows[j][ID])
  }

  /** Distinct keys make the (non-empty) IDs themselves distinct, so a row is
      found by its ID at its own position. */
  lemma DistinctKeysFind(rows: seq<Record>, k: int)
    requires DistinctKeys(rows) && 0 <= k < |rows| && rows[k][ID] != ""
    ensures Find(rows, rows[k][ID]) == k
  {
    forall j | 0 <= j < k ensures rows[j][ID] != rows[k][ID] {
      assert !SameKey(rows[j][ID], rows[k][ID]);
    }
  }

  // ---- Reading the catalog file ----------------------------------------

  /** The rows of a catalog file other than the header are empty (a blank CSV
      line) or have the seven fields. */
  predicate Shaped(lines: seq<seq<string>>) {
    forall i :: 0 <= i < |lines| ==> lines[i] == [] || |lines[i]| == 7
  }

  /** The non-empty rows of `lines`, in file order. */
  function NonEmpty(lines: seq<seq<string>>): (rows: seq<Record>)
    requires Shaped(lines)
    ensures |rows| <= |lines|
    ensures forall r :: r in rows ==> r in lines
    ensures forall l :: l in lines && l != [] ==> l in rows
    decreases |lines|
  {
    if lines == [] then []
    else
      var init := lines[..|lines| - 1];
      var last := lines[|lines| - 1];
      assert lines == init + [last];
      if last == [] then NonEmpty(init) else NonEmpty(init) + [last]
  }

  /** Reading the lines in two parts gives the rows of each part, in order;
      a single line contributes itself exactly when it is not blank. */
  lemma {:induction false} NonEmptyAppend(a: seq<seq<string>>, b: seq<seq<string>>)
    requires Shaped(a) && Shaped(b)
    ensures Shaped(a + b) && NonEmpty(a + b) == NonEmpty(a) + NonEmpty(b)
    ensures |b| == 1 ==> NonEmpty(b) == if b[0] == [] then [] else b
    decreases |b|
  {
    assert Shaped(a + b) by {
      forall i | 0 <= i < |a + b| ensures (a + b)[i] == [] || |(a + b)[i]| == 7 {
        if i >= |a| {
          assert (a + b)[i] == b[i - |a|];
        }
      }
    }
    if b == [] {
      assert a + b == a;
    } else {
      var init, last := b[..|b| - 1], b[|b| - 1];
      assert Shaped(init) by {
        forall i | 0 <= i < |init| ensures init[i] == [] || |init[i]| == 7 {
          assert init[i] == b[i];
        }
      }
      NonEmptyAppend(a, init);
      assert (a + b)[..|a + b| - 1] == a + init;
      assert (a + b)[|a + b| - 1] == last;
      if |b| == 1 {
        assert b[..0] == [];
      }
    }
  }

  lemma {:induction false} NonEmptyOfRecords(rows: seq<Record>)
    ensures Shaped(rows) && NonEmpty(rows) == rows
    decreases |rows|
  {
    if rows != [] {
      NonEmptyOfRecords(rows[..|rows| - 1]);
    }
  }

  // ---- The order `load` sorts rows into ----------------------------------

  /** Row `a` goes before row `b` when sorting by column `col` with the ID as
      tiebreak (Python's two stable sorts, first by ID, then by `col`). */
  predicate RowLess(a: Record, b: Record, col: Column) {
    Less(a[col], b[col]) || (a[col] == b[col] && Less(a[ID], b[ID]))
  }

  lemma RowLessIrreflexive(a: Record, col: Column)
    ensures !RowLess(a, a, col)
  {
    LessIrreflexive(a[col]);
    LessIrreflexive(a[ID]);
  }

  lemma RowLessTrans(a: Record, b: Record, c: Record, col: Column)
    requires RowLess(a, b, col) && RowLess(b, c, col)
    ensures RowLess(a, c, col)
  {
    if Less(a[col], b[col]) && Less(b[col], c[col]) {
      LessTrans(a[col], b[col], c[col]);
    } else if a[col] == b[col] && b[col] == c[col] {
      LessTrans(a[ID], b[ID], c[ID]);
    }
  }

  lemma RowLessAsymmetric(a: Record, b: Record, col: Column)
    requires RowLess(a, b, col)
    ensures !RowLess(b, a, col)
  {
    if RowLess(b, a, col) {
      RowLessTrans(a, b, a, col);
      RowLessIrreflexive(a, col);
    }
  }

  lemma RowLessTotal(a: Record, b: Record, col: Column)
    ensures RowLess(a, b, col) || RowLess(b, a, col) || (a[col] == b[col] && a[ID] == b[ID])
  {
    LessTotal(a[col], b[col]);
    LessTotal(a[ID], b[ID]);
  }

  /** If `a` goes before `b`, then any `m` goes after `a` or before `b`. */
  lemma RowLessSplit(a: Record, m: Record, b: Record, col: Column)
    requires RowLess(a, b, col)
    ensures RowLess(a, m, col) || RowLess(m, b, col)
  {
    RowLessTotal(m, b, col);
    if RowLess(b, m, col) {
      RowLessTrans(a, b, m, col);
    } else if !RowLess(m, b, col) {
      assert m[col] == b[col] && m[ID] == b[ID];
    }
  }

  /** No row is followed by one that should come before it. */
  predicate Sorted(s: seq<Record>, col: Column) {
    forall i, j :: 0 <= i < j < |s| ==> !RowLess(s[j], s[i], col)
  }

  /** Insert `x` after the last rows of `s` it does not go before. */
  function InsertRow(s: seq<Record>, x: Record, col: Column): (r: seq<Record>)
    ensures multiset(r) == multiset(s) + multiset{x}
    decreases |s|
  {
    if s == [] then [x]
    else
      assert s == s[..|s| - 1] + [s[|s| - 1]];
      if RowLess(x, s[|s| - 1], col) then InsertRow(s[..|s| - 1], x, col) + [s[|s| - 1]]
      else s + [x]
  }

  lemma {:induction false} InsertKeepsSorted(s: seq<Record>, x: Record, col: Column)
    requires Sorted(s, col)
    ensures Sorted(InsertRow(s, x, col), col)
    decreases |s|
  {
    if s != [] {
      var init, last := s[..|s| - 1], s[|s| - 1];
      if RowLess(x, last, col) {
        SortedPrefix(s, col);
        InsertKeepsSorted(init, x, col);
        InsertBeforeLast(s, x, col);
      } else {
        InsertAfterLast(s, x, col);
      }
    }
  }

  /** A row that goes before the last one is inserted into the others, and
      the last row stays after all of them. */
  lemma InsertBeforeLast(s: seq<Record>, x: Record, col: Column)
    requires s != [] && Sorted(s, col) && RowLess(x, s[|s| - 1], col)
    requires Sorted(InsertRow(s[..|s| - 1], x, col), col)
    ensures Sorted(InsertRow(s, x, col), col)
  {
    var init, last := s[..|s| - 1], s[|s| - 1];
    var m := InsertRow(init, x, col);
    forall y | y in m ensures !RowLess(last, y, col) {
      assert y in multiset(init) + multiset{x};
      if y == x {
        RowLessAsymmetric(x, last, col);
      } else {
        var i :| 0 <= i < |init| && init[i] == y;
        assert s[i] == y;
      }
    }
    assert InsertRow(s, x, col) == m + [last];
  }

  /** A row that does not go before the last one goes after every row. */
  lemma InsertAfterLast(s: seq<Record>, x: Record, col: Column)
    requires s != [] && Sorted(s, col) && !RowLess(x, s[|s| - 1], col)
    ensures Sorted(InsertRow(s, x, col), col)
  {
    var last := s[|s| - 1];
    forall i | 0 <= i < |s| ensures !RowLess(x, s[i], col) {
      if RowLess(x, s[i], col) {
        RowLessSplit(x, last, s[i], col);
      }
    }
    InsertLast(s, x, col);
  }

  /** The rows in `load` order: a stable insertion sort by column `col`, then ID. */
  function SortRows(s: seq<Record>, col: Column): (r: seq<Record>)
    ensures Sorted(r, col)
    ensures multiset(r) == multiset(s)
    decreases |s|
  {
    if s == [] then []
    else
      assert s == s[..|s| - 1] + [s[|s| - 1]];
      InsertKeepsSorted(SortRows(s[..|s| - 1], col), s[|s| - 1], col);
      InsertRow(SortRows(s[..|s| - 1], col), s[|s| - 1], col)
  }

  lemma SortedPrefix(s: seq<Record>, col: Column)
    requires Sorted(s, col) && s != []
    ensures Sorted(s[..|s| - 1], col) && (|s| >= 2 ==> !RowLess(s[|s| - 1], s[|s| - 2], col))
  {
  }

  /** A row that does not go before the last one is appended. */
  lemma InsertLast(s: seq<Record>, x: Record, col: Column)
    requires s == [] || !RowLess(x, s[|s| - 1], col)
    ensures InsertRow(s, x, col) == s + [x]
  {
  }

  /** Sorting rows that are already in order leaves them where they are. */
  lemma {:induction false} SortSorted(s: seq<Record>, col: Column)
    requires Sorted(s, col)
    ensures SortRows(s, col) == s
    decreases |s|
  {
    if s != [] {
      SortedPrefix(s, col);
      SortSorted(s[..|s| - 1], col);
      SortSortedLast(s, col);
    }
  }

  /** A sorted row sequence whose rows before the last sort to themselves
      sorts to itself. */
  lemma SortSortedLast(s: seq<Record>, col: Column)
    requires s != [] && Sorted(s, col) && SortRows(s[..|s| - 1], col) == s[..|s| - 1]
    ensures SortRows(s, col) == s
  {
    var init, last := s[..|s| - 1], s[|s| - 1];
    SortedPrefix(s, col);
    InsertLast(init, last, col);
    SplitLast(s);
  }

  lemma SplitLast<T>(s: seq<T>)
    requires s != []
    ensures s[..|s| - 1] + [s[|s| - 1]] == s
  {
  }

  /** Sorting keeps the IDs' keys distinct. */
  lemma {:induction false} SortKeepsDistinct(s: seq<Record>, col: Column)
    requires DistinctKeys(s)
    ensures DistinctKeys(SortRows(s, col))
    decreases |s|
  {
    if s != [] {
      var init, x := s[..|s| - 1], s[|s| - 1];
      SortKeepsDistinct(init, col);
      var sorted := SortRows(init, col);
      forall y | y in sorted ensures !SameKey(y[ID], x[ID]) {
        assert y in multiset(init);
        var i :| 0 <= i < |init| && init[i] == y;
      }
      InsertKeepsDistinct(sorted, x, col);
    }
  }

  lemma {:induction false} InsertKeepsDistinct(s: seq<Record>, x: Record, col: Column)
    requires DistinctKeys(s)
    requires forall y :: y in s ==> !SameKey(y[ID], x[ID])
    ensures DistinctKeys(InsertRow(s, x, col))
    decreases |s|
  {
    if s != [] {
      var init, last := s[..|s| - 1], s[|s| - 1];
      if RowLess(x, last, col) {
        InsertKeepsDistinct(init, x, col);
        var r := InsertRow(init, x, col);
        forall y | y in r ensures !SameKey(y[ID], last[ID]) {
          assert y in multiset(init) + multiset{x};
          if y != x {
            var i :| 0 <= i < |init| && init[i] == y;
            assert s[i] == y;
          }
        }
      }
    }
  }
}

/// The card ledger: the list of card names and, per card, its loan entries;
/// and the correspondence between loan entries and the State of catalog rows.
module Ledger {
  import opened Records

  /** The cards file: the `"LIST"` of names and one list of loans per name. */
  datatype CardsDoc = CardsDoc(names: seq<string>, loans: map<string, seq<Loan>>)

  predicate NoRepeats(names: seq<string>) {
    forall i, j :: 0 <= i < j < |names| ==> names[i] != names[j]
  }

  /** Every listed name has a loan list, every loan list a listed name, and no
      name is listed twice. */
  predicate DocOk(d: CardsDoc) {
    NoRepeats(d.names) && (forall n :: n in d.names ==> n in d.loans) && forall n :: n in d.loans ==> n in d.names
  }

  /** Python's `list.index(x)`: the position of the first element equal to `x`. */
  function IndexOf<T(==)>(s: seq<T>, x: T): (j: nat)
    requires x in s
    ensures j < |s| && s[j] == x
    ensures forall i :: 0 <= i < j ==> s[i] != x
  {
    if s[0] == x then 0
    else
      assert s == [s[0]] + s[1..];
      1 + IndexOf(s[1..], x)
  }

  /** Python's `s.pop(j)`, as the list left behind. */
  function RemoveAt<T>(s: seq<T>, j: nat): (r: seq<T>)
    requires j < |s|
    ensures |r| == |s| - 1
    ensures forall i :: 0 <= i < |r| ==> r[i] == if i < j then s[i] else s[i + 1]
  {
    s[..j] + s[j + 1..]
  }

  /** What `s.pop(j)` keeps: only elements of `s`, and without repeats every
      element other than `s[j]`, and not `s[j]` itself. */
  lemma RemoveAtMembers(s: seq<string>, j: nat)
    requires j < |s|
    ensures forall y :: y in RemoveAt(s, j) ==> y in s
    ensures NoRepeats(s) ==> && NoRepeats(RemoveAt(s, j)) && s[j] !in RemoveAt(s, j)
                             && forall y :: y in s && y != s[j] ==> y in RemoveAt(s, j)
  {
    var r := RemoveAt(s, j);
    forall y | y in r ensures y in s {
      var i :| 0 <= i < |r| && r[i] == y;
      assert i < j ==> s[i] == y;
      assert i >= j ==> s[i + 1] == y;
    }
    if NoRepeats(s) {
      forall y | y in s && y != s[j] ensures y in r {
        var i :| 0 <= i < |s| && s[i] == y;
        if i < j {
          assert r[i] == y;
        } else {
          assert r[i - 1] == y;
        }
      }
    }
  }

  /** Python's `list.remove(x)`: drop the first occurrence of `x`. */
  function RemoveName(names: seq<string>, x: string): (r: seq<string>)
    requires x in names
    ensures |r| == |names| - 1
    ensures NoRepeats(names) ==> NoRepeats(r) && x !in r && forall y :: y in names && y != x ==> y in r
    ensures forall y :: y in r ==> y in names
  {
    var j := IndexOf(names, x);
    RemoveAtMembers(names, j);
    RemoveAt(names, j)
  }

  /** The IDs of a card's loan entries, in order. */
  function LoanIds(s: seq<Loan>): seq<string> {
    seq(|s|, m requires 0 <= m < |s| => s[m].id)
  }

  /** How many entries of a card carry the book ID `id`. */
  function Count(s: seq<Loan>, id: string): nat {
    multiset(LoanIds(s))[id]
  }

  lemma CountNone(s: seq<Loan>, id: string)
    ensures Count(s, id) == 0 <==> forall m :: 0 <= m < |s| ==> s[m].id != id
  {
    if Count(s, id) != 0 {
      assert id in LoanIds(s);
    }
    if exists m :: 0 <= m < |s| && s[m].id == id {
      var m :| 0 <= m < |s| && s[m].id == id;
      assert LoanIds(s)[m] == id;
    }
  }

  lemma CountAppend(s: seq<Loan>, e: Loan, id: string)
    ensures Count(s + [e], id) == Count(s, id) + (if e.id == id then 1 else 0)
  {
    assert LoanIds(s + [e]) == LoanIds(s) + [e.id];
  }

  lemma CountRemoveAt(s: seq<Loan>, j: nat, id: string)
    requires j < |s|
    ensures Count(RemoveAt(s, j), id) == Count(s, id) - (if s[j].id == id then 1 else 0)
  {
    assert LoanIds(s) == LoanIds(s[..j]) + [s[j].id] + LoanIds(s[j + 1..]);
    assert LoanIds(RemoveAt(s, j)) == LoanIds(s[..j]) + LoanIds(s[j + 1..]);
  }

  // ---- Return: the loop that pops matching entries ------------------------

  /** What `for entry in CARDS[card]: if entry[0] == id: CARDS[card].pop(
      CARDS[card].index(entry))` leaves of the list, continued from iterator
      position `i` over the current list `cur`. After a pop the iterator moves
      on past the element that slid into the popped slot, and `index` removes
      the first entry EQUAL to the matching one, which need not be the one the
      iterator is at. */
  function PopLoop(cur: seq<Loan>, i: nat, id: string): seq<Loan>
    decreases |cur| - i
  {
    if i >= |cur| then cur
    else if cur[i].id == id then PopLoop(RemoveAt(cur, IndexOf(cur, cur[i])), i + 1, id)
    else PopLoop(cur, i + 1, id)
  }

  lemma {:induction false} PopLoopNoMatch(cur: seq<Loan>, i: nat, j: nat, id: string)
    requires i <= j <= |cur|
    requires forall m :: i <= m < j ==> cur[m].id != id
    ensures PopLoop(cur, i, id) == PopLoop(cur, j, id)
    decreases j - i
  {
    if i < j {
      PopLoopNoMatch(cur, i + 1, j, id);
    }
  }

  /** With a single entry for `id`, returning removes exactly that entry. */
  lemma PopLoopSingle(s: seq<Loan>, id: string, m: nat)
    requires m < |s| && s[m].id == id && Count(s, id) == 1
    ensures PopLoop(s, 0, id) == RemoveAt(s, m)
  {
    CountRemoveAt(s, m, id);
    CountNone(RemoveAt(s, m), id);
    forall k | 0 <= k < m ensures s[k].id != id {
      assert RemoveAt(s, m)[k] == s[k];
    }
    PopLoopNoMatch(s, 0, m, id);
    var j := IndexOf(s, s[m]);
    assert j == m;
    var r := RemoveAt(s, m);
    if m + 1 <= |r| {
      PopLoopNoMatch(r, m + 1, |r|, id);
    }
  }

  /** Returning a book whose entry was the last one appended, and the only one
      for its ID, gives back the card as it was before. */
  lemma PopLoopAppended(s: seq<Loan>, e: Loan)
    requires Count(s, e.id) == 0
    ensures PopLoop(s + [e], 0, e.id) == s
  {
    CountAppend(s, e, e.id);
    PopLoopSingle(s + [e], e.id, |s|);
    assert RemoveAt(s + [e], |s|) == s;
  }

  // ---- The correspondence between rows and loan entries --------------------

  /** Row `i` is on the shelf, or its State names a known card that holds
      exactly one entry with the row's ID. */
  predicate StateHeld(rows: seq<Record>, loans: map<string, seq<Loan>>, i: int)
    requires 0 <= i < |rows|
  {
    var st := rows[i][STATE];
    st == Available
    || (st == BorrowedBy(CardOf(st)) && CardOf(st) in loans && Count(loans[CardOf(st)], rows[i][ID]) == 1)
  }

  /** Some row with the entry's ID is lent on card `c`. */
  predicate EntryHeld(rows: seq<Record>, c: string, e: Loan) {
    exists i :: 0 <= i < |rows| && rows[i][ID] == e.id && rows[i][STATE] == BorrowedBy(c)
  }

  /** A borrowed row's card holds an entry with its ID, and every loan entry
      belongs to a row lent on that card. */
  predicate LoansConsistent(rows: seq<Record>, loans: map<string, seq<Loan>>) {
    StatesHeld(rows, loans) && EntriesHeld(rows, loans)
  }

  predicate StatesHeld(rows: seq<Record>, loans: map<string, seq<Loan>>) {
    forall i :: 0 <= i < |rows| ==> StateHeld(rows, loans, i)
  }

  predicate EntriesHeld(rows: seq<Record>, loans: map<string, seq<Loan>>) {
    forall c, k :: c in loans && 0 <= k < |loans[c]| ==> EntryHeld(rows, c, loans[c][k])
  }

  predicate UniqueIds(rows: seq<Record>) {
    forall i, j :: 0 <= i < j < |rows| ==> rows[i][ID] != rows[j][ID]
  }

  lemma BorrowedByInjective(a: string, b: string)
    ensures BorrowedBy(a) == BorrowedBy(b) <==> a == b
  {
    assert CardOf(BorrowedBy(a)) == a && CardOf(BorrowedBy(b)) == b;
  }

  /** A row on the shelf has no loan entry anywhere. */
  lemma AvailableHasNoEntry(rows: seq<Record>, loans: map<string, seq<Loan>>, k: int, c: string)
    requires UniqueIds(rows) && LoansConsistent(rows, loans)
    requires 0 <= k < |rows| && rows[k][STATE] == Available && c in loans
    ensures Count(loans[c], rows[k][ID]) == 0
  {
    CountNone(loans[c], rows[k][ID]);
    forall m | 0 <= m < |loans[c]| ensures loans[c][m].id != rows[k][ID] {
      assert EntryHeld(rows, c, loans[c][m]);
      var i :| 0 <= i < |rows| && rows[i][ID] == loans[c][m].id && rows[i][STATE] == BorrowedBy(c);
    }
  }

  /** Borrow: a shelf row becomes lent on `card` and the card gains its entry. */
  lemma BorrowKeepsConsistent(rows: seq<Record>, loans: map<string, seq<Loan>>, k: int, card: string, e: Loan)
    requires UniqueIds(rows) && LoansConsistent(rows, loans)
    requires 0 <= k < |rows| && rows[k][STATE] == Available && card in loans && e.id == rows[k][ID]
    ensures LoansConsistent(rows[k := rows[k][STATE := BorrowedBy(card)]], loans[card := loans[card] + [e]])
  {
    var rows', loans' := rows[k := rows[k][STATE := BorrowedBy(card)]], loans[card := loans[card] + [e]];
    AvailableHasNoEntry(rows, loans, k, card);
    forall i | 0 <= i < |rows'| ensures StateHeld(rows', loans', i) {
      CountAppend(loans[card], e, rows[i][ID]);
      assert StateHeld(rows, loans, i);
    }
    forall c, m | c in loans' && 0 <= m < |loans'[c]| ensures EntryHeld(rows', c, loans'[c][m]) {
      if c == card && m == |loans[card]| {
        assert rows'[k][ID] == e.id;
      } else {
        assert loans'[c][m] == loans[c][m];
        assert EntryHeld(rows, c, loans[c][m]);
        var i :| 0 <= i < |rows| && rows[i][ID] == loans[c][m].id && rows[i][STATE] == BorrowedBy(c);
        assert i != k;
        assert rows'[i] == rows[i];
      }
    }
  }

  /** Return: a lent row goes back on the shelf and its one entry leaves the card. */
  lemma ReturnKeepsConsistent(rows: seq<Record>, loans: map<string, seq<Loan>>, k: int, card: string, m: nat)
    requires UniqueIds(rows) && LoansConsistent(rows, loans)
    requires 0 <= k < |rows| && card in loans && m < |loans[card]| && loans[card][m].id == rows[k][ID]
    ensures rows[k][STATE] == BorrowedBy(card) && Count(loans[card], rows[k][ID]) == 1
    ensures LoansConsistent(rows[k := rows[k][STATE := Available]], loans[card := RemoveAt(loans[card], m)])
  {
    assert EntryHeld(rows, card, loans[card][m]);
    var w :| 0 <= w < |rows| && rows[w][ID] == rows[k][ID] && rows[w][STATE] == BorrowedBy(card);
    assert w == k;
    assert StateHeld(rows, loans, k);
    ReturnStatesHeld(rows, loans, k, card, m);
    ReturnEntriesHeld(rows, loans, k, card, m);
  }

  lemma ReturnStatesHeld(rows: seq<Record>, loans: map<string, seq<Loan>>, k: int, card: string, m: nat)
    requires UniqueIds(rows) && LoansConsistent(rows, loans)
    requires 0 <= k < |rows| && card in loans && m < |loans[card]| && loans[card][m].id == rows[k][ID]
    ensures StatesHeld(rows[k := rows[k][STATE := Available]], loans[card := RemoveAt(loans[card], m)])
  {
    var s := loans[card];
    var rows', loans' := rows[k := rows[k][STATE := Available]], loans[card := RemoveAt(s, m)];
    forall i | 0 <= i < |rows'| ensures StateHeld(rows', loans', i) {
      if i != k {
        assert StateHeld(rows, loans, i);
        assert rows'[i] == rows[i];
        CountRemoveAt(s, m, rows[i][ID]);
      }
    }
  }

  lemma ReturnEntriesHeld(rows: seq<Record>, loans: map<string, seq<Loan>>, k: int, card: string, m: nat)
    requires LoansConsistent(rows, loans)
    requires 0 <= k < |rows| && card in loans && m < |loans[card]| && loans[card][m].id == rows[k][ID]
    requires rows[k][STATE] == BorrowedBy(card) && Count(loans[card], rows[k][ID]) == 1
    ensures EntriesHeld(rows[k := rows[k][STATE := Available]], loans[card := RemoveAt(loans[card], m)])
  {
    var x := rows[k][ID];
    var s := loans[card];
    var rows', loans' := rows[k := rows[k][STATE := Available]], loans[card := RemoveAt(s, m)];
    CountRemoveAt(s, m, x);
    CountNone(RemoveAt(s, m), x);
    forall c, j | c in loans' && 0 <= j < |loans'[c]| ensures EntryHeld(rows', c, loans'[c][j]) {
      var e := loans'[c][j];
      var j0 := if c == card && j >= m then j + 1 else j;
      assert e == loans[c][j0];
      assert EntryHeld(rows, c, loans[c][j0]);
      var i :| 0 <= i < |rows| && rows[i][ID] == e.id && rows[i][STATE] == BorrowedBy(c);
      if c == card {
        assert e == RemoveAt(s, m)[j];
      } else {
        BorrowedByInjective(c, card);
      }
      assert i != k;
      assert rows'[i] == rows[i];
    }
  }

  /** Borrowing a book and returning it on the same card restores both the
      rows and the cards. */
  lemma BorrowThenReturn(rows: seq<Record>, loans: map<string, seq<Loan>>, k: int, card: string, e: Loan)
    requires UniqueIds(rows) && LoansConsistent(rows, loans)
    requires 0 <= k < |rows| && rows[k][STATE] == Available && card in loans && e.id == rows[k][ID]
    ensures var rows1 := rows[k := rows[k][STATE := BorrowedBy(card)]];
            var loans1 := loans[card := loans[card] + [e]];
            rows1[k := rows1[k][STATE := Available]] == rows
            && loans1[card := PopLoop(loans1[card], 0, e.id)] == loans
  {
    AvailableHasNoEntry(rows, loans, k, card);
    PopLoopAppended(loans[card], e);
    var rows1 := rows[k := rows[k][STATE := BorrowedBy(card)]];
    assert rows1[k][STATE := Available] == rows[k];
  }

  /** Any edit that keeps each row's ID and State, or re-labels a shelf row. */
  lemma ChangeRowKeepsConsistent(rows: seq<Record>, loans: map<string, seq<Loan>>, k: int, r: Record)
    requires LoansConsistent(rows, loans) && 0 <= k < |rows|
    requires (r[ID] == rows[k][ID] && r[STATE] == rows[k][STATE])
          || (rows[k][STATE] == Available && r[STATE] == Available)
    ensures LoansConsistent(rows[k := r], loans)
  {
    var rows' := rows[k := r];
    forall i | 0 <= i < |rows'| ensures StateHeld(rows', loans, i) {
      assert StateHeld(rows, loans, i);
    }
    forall c, j | c in loans && 0 <= j < |loans[c]| ensures EntryHeld(rows', c, loans[c][j]) {
      assert EntryHeld(rows, c, loans[c][j]);
      var i :| 0 <= i < |rows| && rows[i][ID] == loans[c][j].id && rows[i][STATE] == BorrowedBy(c);
      assert rows'[i][ID] == loans[c][j].id && rows'[i][STATE] == BorrowedBy(c);
    }
  }

  /** Deleting a shelf row. */
  lemma DeleteRowKeepsConsistent(rows: seq<Record>, loans: map<string, seq<Loan>>, k: int)
    requires LoansConsistent(rows, loans) && 0 <= k < |rows| && rows[k][STATE] == Available
    ensures LoansConsistent(RemoveAt(rows, k), loans)
  {
    var rows' := RemoveAt(rows, k);
    forall i | 0 <= i < |rows'| ensures StateHeld(rows', loans, i) {
      assert StateHeld(rows, loans, if i < k then i else i + 1);
    }
    forall c, j | c in loans && 0 <= j < |loans[c]| ensures EntryHeld(rows', c, loans[c][j]) {
      assert EntryHeld(rows, c, loans[c][j]);
      var i :| 0 <= i < |rows| && rows[i][ID] == loans[c][j].id && rows[i][STATE] == BorrowedBy(c);
      var i' := if i < k then i else i - 1;
      assert rows'[i'] == rows[i];
    }
  }

  /** Appending a shelf row. */
  lemma AppendKeepsConsistent(rows: seq<Record>, loans: map<string, seq<Loan>>, r: Record)
    requires LoansConsistent(rows, loans) && r[STATE] == Available
    ensures LoansConsistent(rows + [r], loans)
  {
    var rows' := rows + [r];
    forall i | 0 <= i < |rows'| ensures StateHeld(rows', loans, i) {
      if i < |rows| {
        assert StateHeld(rows, loans, i);
      }
    }
    forall c, j | c in loans && 0 <= j < |loans[c]| ensures EntryHeld(rows', c, loans[c][j]) {
      assert EntryHeld(rows, c, loans[c][j]);
      var i :| 0 <= i < |rows| && rows[i][ID] == loans[c][j].id && rows[i][STATE] == BorrowedBy(c);
      assert rows'[i] == rows[i];
    }
  }

  /** Creating a card with an empty loan list. */
  lemma CreateCardKeepsConsistent(rows: seq<Record>, loans: map<string, seq<Loan>>, name: string)
    requires LoansConsistent(rows, loans) && name !in loans
    ensures LoansConsistent(rows, loans[name := []])
  {
    var loans' := loans[name := []];
    forall i | 0 <= i < |rows| ensures StateHeld(rows, loans', i) {
      assert StateHeld(rows, loans, i);
    }
    forall c, j | c in loans' && 0 <= j < |loans'[c]| ensures EntryHeld(rows, c, loans'[c][j]) {
      assert c != name && loans'[c][j] == loans[c][j];
    }
  }

  /** Deleting a card whose loan list is empty. */
  lemma DeleteCardKeepsConsistent(rows: seq<Record>, loans: map<string, seq<Loan>>, name: string)
    requires LoansConsistent(rows, loans) && name in loans && loans[name] == []
    ensures LoansConsistent(rows, loans - {name})
  {
    var loans' := loans - {name};
    forall i | 0 <= i < |rows| ensures StateHeld(rows, loans', i) {
      assert StateHeld(rows, loans, i);
      assert Count([], rows[i][ID]) == 0;
    }
    forall c, j | c in loans' && 0 <= j < |loans'[c]| ensures EntryHeld(rows, c, loans'[c][j]) {
      assert loans'[c][j] == loans[c][j];
    }
  }

  /** The correspondence does not depend on the order of the rows (`load` sorts them). */
  lemma ReorderKeepsConsistent(rows: seq<Record>, rows': seq<Record>, loans: map<string, seq<Loan>>)
    requires multiset(rows') == multiset(rows) && LoansConsistent(rows, loans)
    ensures LoansConsistent(rows', loans)
  {
    forall i | 0 <= i < |rows'| ensures StateHeld(rows', loans, i) {
      assert rows'[i] in multiset(rows);
      var j :| 0 <= j < |rows| && rows[j] == rows'[i];
      assert StateHeld(rows, loans, j);
    }
    forall c, k | c in loans && 0 <= k < |loans[c]| ensures EntryHeld(rows', c, loans[c][k]) {
      assert EntryHeld(rows, c, loans[c][k]);
      var j :| 0 <= j < |rows| && rows[j][ID] == loans[c][k].id && rows[j][STATE] == BorrowedBy(c);
      assert rows[j] in multiset(rows');
      var i :| 0 <= i < |rows'| && rows'[i] == rows[j];
    }
  }
}

/// The expander's effect on the cards. When a prefix's counter gains a digit,
/// every row under that prefix is re-padded (`Ids.ExpandRows`); a renamed row
/// that is out on loan also has the copies of its old ID in its card's loan
/// entries rewritten, and the cards file saved, one row at a time.
module Expander {
  import opened Text
  import opened Records
  import opened Backup
  import opened Ledger
  import opened Ids

  /** The cards part of the store: loan lists in memory and the cards file. */
  datatype Patch = Patch(loans: map<string, seq<Loan>>, file: Slot<CardsDoc>)

  /** `card[j][0] = to` for every entry of the card whose ID is `from`. */
  function RenameEntries(s: seq<Loan>, from: string, to: string): seq<Loan> {
    seq(|s|, k requires 0 <= k < |s| => if s[k].id == from then s[k].(id := to) else s[k])
  }

  /** Each renamed row out on loan names a card the ledger has; otherwise
      `CARDS[state[2:]]` raises KeyError. */
  predicate CardsKnown(rows: seq<Record>, keys: set<string>, p: char, w: nat) {
    forall i :: 0 <= i < |rows| && Renamed(rows[i][ID], p, w) && rows[i][STATE] != Available ==>
      CardOf(rows[i][STATE]) in keys
  }

  /** What the expander does for catalog row `r` (as it was before the pass). */
  function PatchRow(st: Patch, names: seq<string>, r: Record, p: char, w: nat): (st': Patch)
    requires Renamed(r[ID], p, w) && r[STATE] != Available ==> CardOf(r[STATE]) in st.loans
    ensures st'.loans.Keys == st.loans.Keys
  {
    if Renamed(r[ID], p, w) && r[STATE] != Available then
      var c := CardOf(r[STATE]);
      var loans := st.loans[c := RenameEntries(st.loans[c], r[ID], PadId(r[ID], p, w))];
      Patch(loans, Saved(st.file, CardsDoc(names, loans)))
    else st
  }

  /** The expander's pass over the cards from catalog row `i` on. */
  function PatchFrom(st: Patch, names: seq<string>, rows: seq<Record>, p: char, w: nat, i: nat): (st': Patch)
    requires i <= |rows| && CardsKnown(rows, st.loans.Keys, p, w)
    ensures st'.loans.Keys == st.loans.Keys
    decreases |rows| - i
  {
    if i == |rows| then st
    else PatchFrom(PatchRow(st, names, rows[i], p, w), names, rows, p, w, i + 1)
  }

  /** The loan entries with every ID re-padded as the rows' IDs are. */
  function RenameAll(loans: map<string, seq<Loan>>, p: char, w: nat): map<string, seq<Loan>> {
    map c | c in loans :: RenameSeq(loans[c], p, w)
  }

  function RenameSeq(s: seq<Loan>, p: char, w: nat): seq<Loan> {
    seq(|s|, k requires 0 <= k < |s| => s[k].(id := PadId(s[k].id, p, w)))
  }

  // ---- The pass renames every loan entry exactly once ---------------------

  /** Every row has a non-empty ID. */
  predicate Keyed(rows: seq<Record>) {
    forall i :: 0 <= i < |rows| ==> |rows[i][ID]| >= 1
  }

  /** The catalog and cards facts the pass relies on. */
  predicate Base(rows: seq<Record>, loans: map<string, seq<Loan>>) {
    Keyed(rows) && DistinctKeys(rows) && LoansConsistent(rows, loans)
  }

  lemma KeyedUnique(rows: seq<Record>)
    requires Keyed(rows) && DistinctKeys(rows)
    ensures UniqueIds(rows)
  {
    forall i, j | 0 <= i < j < |rows| ensures rows[i][ID] != rows[j][ID] {
      assert !SameKey(rows[i][ID], rows[j][ID]);
    }
  }

  lemma ConsistentCardsKnown(rows: seq<Record>, loans: map<string, seq<Loan>>, p: char, w: nat)
    requires LoansConsistent(rows, loans)
    ensures CardsKnown(rows, loans.Keys, p, w)
  {
    forall i | 0 <= i < |rows| && Renamed(rows[i][ID], p, w) && rows[i][STATE] != Available
      ensures CardOf(rows[i][STATE]) in loans.Keys
    {
      assert StateHeld(rows, loans, i);
    }
  }

  /** An entry whose row comes before `i` has been renamed already. */
  function PartialEntry(e: Loan, rows: seq<Record>, p: char, w: nat, i: nat): Loan {
    if 0 <= Find(rows, e.id) < i then e.(id := PadId(e.id, p, w)) else e
  }

  /** The loan lists after the pass has handled rows `0..i`. */
  function Partial(loans: map<string, seq<Loan>>, rows: seq<Record>, p: char, w: nat, i: nat): map<string, seq<Loan>> {
    map c | c in loans :: seq(|loans[c]|, k requires 0 <= k < |loans[c]| => PartialEntry(loans[c][k], rows, p, w, i))
  }

  /** A loan entry carrying row `i`'s ID is on the card row `i` is lent on. */
  lemma EntryOfRow(rows: seq<Record>, loans: map<string, seq<Loan>>, c: string, k: int, i: int)
    requires UniqueIds(rows) && LoansConsistent(rows, loans)
    requires c in loans && 0 <= k < |loans[c]| && 0 <= i < |rows| && loans[c][k].id == rows[i][ID]
    ensures rows[i][STATE] == BorrowedBy(c)
  {
    assert EntryHeld(rows, c, loans[c][k]);
    var j :| 0 <= j < |rows| && rows[j][ID] == loans[c][k].id && rows[j][STATE] == BorrowedBy(c);
    assert j == i;
  }

  /** Handling row `i` touches exactly the entries that carry row `i`'s ID. */
  lemma PartialEntryStep(e: Loan, rows: seq<Record>, p: char, w: nat, i: nat)
    requires Keyed(rows) && DistinctKeys(rows) && i < |rows|
    ensures PartialEntry(e, rows, p, w, i + 1)
         == if e.id == rows[i][ID] then e.(id := PadId(e.id, p, w)) else PartialEntry(e, rows, p, w, i)
  {
    DistinctKeysFind(rows, i);
  }

  /** An entry already renamed for an earlier row does not carry row `i`'s ID. */
  lemma PartialEntryId(e: Loan, rows: seq<Record>, p: char, w: nat, i: nat)
    requires Keyed(rows) && DistinctKeys(rows) && i < |rows|
    ensures PartialEntry(e, rows, p, w, i).id == rows[i][ID] <==> e.id == rows[i][ID]
  {
    DistinctKeysFind(rows, i);
    var j := Find(rows, e.id);
    if 0 <= j < i {
      var padded := PadId(e.id, p, w);
      assert SameKey(padded, rows[j][ID]);
      assert !SameKey(rows[j][ID], rows[i][ID]);
      assert padded != rows[i][ID];
    }
  }

  /** One step of the pass turns `Partial(i)` into `Partial(i + 1)`. */
  lemma PatchRowStep(loans: map<string, seq<Loan>>, rows: seq<Record>, names: seq<string>,
                     file: Slot<CardsDoc>, p: char, w: nat, i: nat)
    requires Base(rows, loans) && i < |rows|
    ensures var r := rows[i];
            (Renamed(r[ID], p, w) && r[STATE] != Available ==> CardOf(r[STATE]) in loans)
            && PatchRow(Patch(Partial(loans, rows, p, w, i), file), names, r, p, w).loans
               == Partial(loans, rows, p, w, i + 1)
  {
    KeyedUnique(rows);
    var r := rows[i];
    var x := r[ID];
    assert StateHeld(rows, loans, i);
    var L := Partial(loans, rows, p, w, i);
    var L1 := Partial(loans, rows, p, w, i + 1);
    var out := PatchRow(Patch(L, file), names, r, p, w).loans;
    assert out.Keys == L1.Keys;
    forall c | c in loans ensures out[c] == L1[c] {
      PatchCardStep(loans, rows, names, file, p, w, i, c);
    }
  }

  /** `PatchRowStep` for card `c`. */
  lemma PatchCardStep(loans: map<string, seq<Loan>>, rows: seq<Record>, names: seq<string>,
                      file: Slot<CardsDoc>, p: char, w: nat, i: nat, c: string)
    requires Base(rows, loans) && UniqueIds(rows) && i < |rows| && c in loans
    requires Renamed(rows[i][ID], p, w) && rows[i][STATE] != Available ==> CardOf(rows[i][STATE]) in loans
    ensures PatchRow(Patch(Partial(loans, rows, p, w, i), file), names, rows[i], p, w).loans[c]
         == Partial(loans, rows, p, w, i + 1)[c]
  {
    var out := PatchRow(Patch(Partial(loans, rows, p, w, i), file), names, rows[i], p, w).loans[c];
    var L1 := Partial(loans, rows, p, w, i + 1)[c];
    assert |out| == |L1|;
    forall k | 0 <= k < |loans[c]| ensures out[k] == L1[k] {
      PatchEntryStep(loans, rows, names, file, p, w, i, c, k);
    }
  }

  /** `PatchRowStep` for entry `k` of card `c`. */
  lemma PatchEntryStep(loans: map<string, seq<Loan>>, rows: seq<Record>, names: seq<string>,
                       file: Slot<CardsDoc>, p: char, w: nat, i: nat, c: string, k: int)
    requires Base(rows, loans) && UniqueIds(rows) && i < |rows| && c in loans && 0 <= k < |loans[c]|
    requires Renamed(rows[i][ID], p, w) && rows[i][STATE] != Available ==> CardOf(rows[i][STATE]) in loans
    ensures PatchRow(Patch(Partial(loans, rows, p, w, i), file), names, rows[i], p, w).loans[c][k]
         == Partial(loans, rows, p, w, i + 1)[c][k]
  {
    var r := rows[i];
    var x := r[ID];
    var L := Partial(loans, rows, p, w, i);
    var out := PatchRow(Patch(L, file), names, r, p, w).loans;
    var e := loans[c][k];
    PartialEntryStep(e, rows, p, w, i);
    PartialEntryId(e, rows, p, w, i);
    assert L[c][k] == PartialEntry(e, rows, p, w, i);
    assert Partial(loans, rows, p, w, i + 1)[c][k] == PartialEntry(e, rows, p, w, i + 1);
    if e.id == x {
      EntryOfRow(rows, loans, c, k, i);
      if Renamed(x, p, w) {
        assert CardOf(r[STATE]) == c;
      }
    } else if Renamed(x, p, w) && r[STATE] != Available && CardOf(r[STATE]) == c {
      assert out[c][k] == L[c][k];
    }
  }

  lemma PartialStart(loans: map<string, seq<Loan>>, rows: seq<Record>, p: char, w: nat)
    ensures Partial(loans, rows, p, w, 0) == loans
  {
    var L := Partial(loans, rows, p, w, 0);
    forall c | c in loans ensures L[c] == loans[c] {
      assert |L[c]| == |loans[c]|;
    }
  }

  lemma PartialEnd(loans: map<string, seq<Loan>>, rows: seq<Record>, p: char, w: nat)
    requires Base(rows, loans)
    ensures Partial(loans, rows, p, w, |rows|) == RenameAll(loans, p, w)
  {
    var L := Partial(loans, rows, p, w, |rows|);
    forall c | c in loans ensures L[c] == RenameAll(loans, p, w)[c] {
      forall k | 0 <= k < |loans[c]| ensures L[c][k] == RenameSeq(loans[c], p, w)[k] {
        assert EntryHeld(rows, c, loans[c][k]);
        var j :| 0 <= j < |rows| && rows[j][ID] == loans[c][k].id && rows[j][STATE] == BorrowedBy(c);
        assert Find(rows, loans[c][k].id) >= 0;
      }
    }
  }

  lemma {:induction false} PatchFromPartial(loans: map<string, seq<Loan>>, rows: seq<Record>, names: seq<string>,
                                            file: Slot<CardsDoc>, p: char, w: nat, i: nat)
    requires Base(rows, loans) && i <= |rows|
    ensures CardsKnown(rows, loans.Keys, p, w)
    ensures PatchFrom(Patch(Partial(loans, rows, p, w, i), file), names, rows, p, w, i).loans
         == RenameAll(loans, p, w)
    decreases |rows| - i
  {
    ConsistentCardsKnown(rows, loans, p, w);
    if i == |rows| {
      PartialEnd(loans, rows, p, w);
    } else {
      PatchRowStep(loans, rows, names, file, p, w, i);
      var st := PatchRow(Patch(Partial(loans, rows, p, w, i), file), names, rows[i], p, w);
      PatchFromPartial(loans, rows, names, st.file, p, w, i + 1);
    }
  }

  /** The row-by-row pass renames every loan entry exactly as its row was
      renamed: each card ends up as if all entries were re-padded at once. */
  lemma PatchRenamesAll(loans: map<string, seq<Loan>>, rows: seq<Record>, names: seq<string>,
                        file: Slot<CardsDoc>, p: char, w: nat)
    requires Base(rows, loans)
    ensures CardsKnown(rows, loans.Keys, p, w)
    ensures PatchFrom(Patch(loans, file), names, rows, p, w, 0).loans == RenameAll(loans, p, w)
  {
    PartialStart(loans, rows, p, w);
    PatchFromPartial(loans, rows, names, file, p, w, 0);
  }

  // ---- The renamed catalog and cards still agree ---------------------------

  /** Two loan lists that hold `x` and `y` at the same places hold as many
      of each. */
  lemma {:induction false} CountAlike(s: seq<Loan>, t: seq<Loan>, x: string, y: string)
    requires |s| == |t| && forall k :: 0 <= k < |s| ==> (t[k].id == y <==> s[k].id == x)
    ensures Count(t, y) == Count(s, x)
    decreases |s|
  {
    if s != [] {
      var n := |s| - 1;
      assert s == s[..n] + [s[n]] && t == t[..n] + [t[n]];
      CountAlike(s[..n], t[..n], x, y);
      CountAppend(s[..n], s[n], x);
      CountAppend(t[..n], t[n], y);
    }
  }

  /** When re-padding tells `x` apart from every other ID on the card, the
      card holds the new ID as often as it held `x`. */
  lemma CountRenamed(s: seq<Loan>, x: string, p: char, w: nat)
    requires forall k :: 0 <= k < |s| ==> (PadId(s[k].id, p, w) == PadId(x, p, w) <==> s[k].id == x)
    ensures Count(RenameSeq(s, p, w), PadId(x, p, w)) == Count(s, x)
  {
    var t := RenameSeq(s, p, w);
    forall k | 0 <= k < |s| ensures t[k].id == PadId(x, p, w) <==> s[k].id == x {
      assert t[k].id == PadId(s[k].id, p, w);
    }
    CountAlike(s, t, x, PadId(x, p, w));
  }

  lemma RenameSeqSnoc(s: seq<Loan>, e: Loan, p: char, w: nat)
    ensures RenameSeq(s + [e], p, w) == RenameSeq(s, p, w) + [e.(id := PadId(e.id, p, w))]
  {
  }

  /** Row IDs stay told apart after re-padding. */
  lemma PadRowIds(rows: seq<Record>, i: int, j: int, p: char, w: nat)
    requires Keyed(rows) && DistinctKeys(rows) && 0 <= i < |rows| && 0 <= j < |rows|
    ensures PadId(rows[i][ID], p, w) == PadId(rows[j][ID], p, w) <==> i == j
  {
    if i != j {
      PadIdKeepsKeys(rows[i][ID], rows[j][ID], p, w);
      assert !SameKey(rows[i][ID], rows[j][ID]) by {
        if j < i {
          assert !SameKey(rows[j][ID], rows[i][ID]);
        }
      }
    }
  }

  /** Re-padding row IDs and entry IDs alike keeps every borrowed row backed
      by its card and every entry backed by its row. */
  lemma ExpandKeepsConsistent(rows: seq<Record>, loans: map<string, seq<Loan>>, p: char, w: nat)
    requires Base(rows, loans)
    ensures LoansConsistent(ExpandRows(rows, p, w), RenameAll(loans, p, w))
  {
    KeyedUnique(rows);
    var rows', loans' := ExpandRows(rows, p, w), RenameAll(loans, p, w);
    forall i | 0 <= i < |rows'| ensures StateHeld(rows', loans', i) {
      assert StateHeld(rows, loans, i);
      var st := rows[i][STATE];
      if st != Available {
        var c := CardOf(st);
        var s := loans[c];
        forall k | 0 <= k < |s|
          ensures PadId(s[k].id, p, w) == PadId(rows[i][ID], p, w) <==> s[k].id == rows[i][ID]
        {
          assert EntryHeld(rows, c, s[k]);
          var j :| 0 <= j < |rows| && rows[j][ID] == s[k].id && rows[j][STATE] == BorrowedBy(c);
          PadRowIds(rows, i, j, p, w);
        }
        CountRenamed(s, rows[i][ID], p, w);
      }
    }
    forall c, k | c in loans' && 0 <= k < |loans'[c]| ensures EntryHeld(rows', c, loans'[c][k]) {
      assert EntryHeld(rows, c, loans[c][k]);
      var j :| 0 <= j < |rows| && rows[j][ID] == loans[c][k].id && rows[j][STATE] == BorrowedBy(c);
      assert rows'[j][ID] == loans'[c][k].id && rows'[j][STATE] == BorrowedBy(c);
    }
  }

  // ---- The cards file during the pass --------------------------------------

  /** A cards file whose live content and backup are both well formed. */
  predicate SlotOk(s: Slot<CardsDoc>) {
    DocOk(s.live) && (s.bak.Some? ==> DocOk(s.bak.value))
  }

  /** The pass leaves the cards file alone, or with the final loan lists live;
      either way the file stays well formed. */
  lemma {:induction false} PatchFile(st: Patch, names: seq<string>, rows: seq<Record>, p: char, w: nat, i: nat)
    requires i <= |rows| && CardsKnown(rows, st.loans.Keys, p, w)
    requires SlotOk(st.file) && DocOk(CardsDoc(names, st.loans))
    ensures var st' := PatchFrom(st, names, rows, p, w, i);
            SlotOk(st'.file) && DocOk(CardsDoc(names, st'.loans))
            && ((st'.file == st.file && st'.loans == st.loans) || st'.file.live == CardsDoc(names, st'.loans))
    decreases |rows| - i
  {
    if i < |rows| {
      var st1 := PatchRow(st, names, rows[i], p, w);
      PatchFile(st1, names, rows, p, w, i + 1);
    }
  }
}

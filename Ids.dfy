/// Book IDs: a location prefix followed by a counter value, the counters that
/// issue them, and the expander that re-pads older IDs (and the loan entries
/// that copy them) when a counter gains a decimal digit.
module Ids {
  import opened Text
  import opened Records
  import opened Backup
  import opened Ledger

  /** `IDS[p]`, taken as 0 for a prefix that has never issued an ID. */
  function Counter(ids: map<char, nat>, p: char): nat {
    if p in ids then ids[p] else 0
  }

  /** The ID issued for counter value `n` under prefix `p`: `p + str(n)`. */
  function NewId(p: char, n: nat): (id: string)
    ensures |id| >= 2 && id[0] == p && AllDigits(id[1..]) && Value(id[1..]) == n
    ensures |id| - 1 == Width(n)
  {
    assert ([p] + Str(n))[1..] == Str(n);
    [p] + Str(n)
  }

  /** An ID the counters account for: a non-numeric prefix with a counter,
      then a number between 1 and that counter, zero-padded to the counter's
      width. */
  predicate IdOk(id: string, ids: map<char, nat>) {
    && |id| >= 2 && id[0] in ids && !IsNumeric(id[0])
    && AllDigits(id[1..]) && 1 <= Value(id[1..]) <= ids[id[0]]
    && |id| - 1 == Width(ids[id[0]])
  }

  /** A row whose ID is accounted for and starts with its Location's first character. */
  predicate RowOk(r: Record, ids: map<char, nat>) {
    IdOk(r[ID], ids) && r[LOCATION] != "" && r[LOCATION][0] == r[ID][0]
  }

  /** The catalog invariant: every row's ID is accounted for by the counters,
      and no two rows share a prefix and a number. */
  predicate IdsOk(rows: seq<Record>, ids: map<char, nat>) {
    (forall i :: 0 <= i < |rows| ==> RowOk(rows[i], ids)) && DistinctKeys(rows)
  }

  lemma SameKeySymmetric(a: string, b: string)
    requires SameKey(a, b)
    ensures SameKey(b, a)
  {
  }

  /** Accounted-for IDs are unique. */
  lemma IdsOkUnique(rows: seq<Record>, ids: map<char, nat>)
    requires IdsOk(rows, ids)
    ensures UniqueIds(rows)
  {
    forall i, j | 0 <= i < j < |rows| ensures rows[i][ID] != rows[j][ID] {
      assert RowOk(rows[i], ids) && !SameKey(rows[i][ID], rows[j][ID]);
    }
  }

  /** A row whose ID must be re-padded: it starts with `p` and its number is
      not `w` digits wide. */
  predicate Renamed(id: string, p: char, w: nat) {
    |id| >= 1 && id[0] == p && |id| - 1 != w
  }

  /** The expander's new ID: `p + id[1:].rjust(w, "0")` for a renamed ID,
      otherwise the ID itself. */
  function PadId(id: string, p: char, w: nat): (r: string)
    ensures |id| >= 1 ==> SameKey(r, id)
    ensures |id| >= 1 && AllDigits(id[1..]) ==> AllDigits(r[1..])
    ensures Renamed(id, p, w) ==> |r| - 1 == if |id| - 1 < w then w else |id| - 1
    ensures !Renamed(id, p, w) ==> r == id
  {
    if Renamed(id, p, w) then
      var r := [p] + RJust(id[1..], w, '0');
      assert r[1..] == RJust(id[1..], w, '0');
      PadKeepsValue(id[1..], w);
      r
    else id
  }

  /** Re-padding keeps apart IDs that had different keys. */
  lemma PadIdKeepsKeys(a: string, b: string, p: char, w: nat)
    requires |a| >= 1 && |b| >= 1
    ensures SameKey(PadId(a, p, w), PadId(b, p, w)) <==> SameKey(a, b)
  {
  }

  /** The rows after `expander(p)` with the counter at width `w`. */
  function ExpandRows(rows: seq<Record>, p: char, w: nat): seq<Record> {
    seq(|rows|, i requires 0 <= i < |rows| => rows[i][ID := PadId(rows[i][ID], p, w)])
  }

  /** The expander's loop after its first `i` rows. */
  function ExpandedTo(rows: seq<Record>, p: char, w: nat, i: nat): seq<Record>
    requires i <= |rows|
  {
    ExpandRows(rows[..i], p, w) + rows[i..]
  }

  /** One more turn of the expander's loop re-pads row `i`; after the last
      turn every row is re-padded. */
  lemma ExpandedStep(rows: seq<Record>, p: char, w: nat, i: nat)
    requires i < |rows|
    ensures ExpandedTo(rows, p, w, i)[i] == rows[i]
    ensures ExpandedTo(rows, p, w, i)[i := rows[i][ID := PadId(rows[i][ID], p, w)]] == ExpandedTo(rows, p, w, i + 1)
  {
    var a := ExpandedTo(rows, p, w, i)[i := rows[i][ID := PadId(rows[i][ID], p, w)]];
    var b := ExpandedTo(rows, p, w, i + 1);
    assert |a| == |b|;
    forall j | 0 <= j < |a| ensures a[j] == b[j] {
      if j < i {
        assert a[j] == ExpandRows(rows[..i], p, w)[j];
      } else if j > i {
        assert a[j] == rows[i..][j - i];
        assert b[j] == rows[i + 1..][j - i - 1];
      }
    }
  }

  /** Before the first turn no row is re-padded; after the last, all are. */
  lemma ExpandedEnds(rows: seq<Record>, p: char, w: nat)
    ensures ExpandedTo(rows, p, w, 0) == rows && ExpandedTo(rows, p, w, |rows|) == ExpandRows(rows, p, w)
  {
    assert rows[..0] == [] && rows[0..] == rows;
    assert ExpandRows(rows[..0], p, w) == [];
    assert rows[..|rows|] == rows && rows[|rows|..] == [];
  }

  /** What the allocator does to the rows and the counters for prefix `p`:
      the counter is created at 0 if absent and bumped; when it gains a digit
      the rows under `p` are re-padded. */
  function AllocRows(rows: seq<Record>, ids: map<char, nat>, p: char): seq<Record> {
    var c := Counter(ids, p) + 1;
    if Width(c - 1) != Width(c) then ExpandRows(rows, p, Width(c)) else rows
  }

  /** The allocator keeps every row accounted for under the bumped counters,
      keeps keys distinct, and the ID it issues clashes with no row. */
  lemma AllocKeepsIdsOk(rows: seq<Record>, ids: map<char, nat>, p: char)
    requires IdsOk(rows, ids) && !IsNumeric(p)
    ensures var c := Counter(ids, p) + 1;
            var rows' := AllocRows(rows, ids, p);
            && IdsOk(rows', ids[p := c])
            && (forall i :: 0 <= i < |rows'| ==> !SameKey(rows'[i][ID], NewId(p, c)))
  {
    var c := Counter(ids, p) + 1;
    var w := Width(c);
    var rows' := AllocRows(rows, ids, p);
    forall i | 0 <= i < |rows'|
      ensures RowOk(rows'[i], ids[p := c]) && !SameKey(rows'[i][ID], NewId(p, c))
    {
      assert RowOk(rows[i], ids);
      AllocRowOk(rows[i], ids, p);
    }
    forall i, j | 0 <= i < j < |rows'| ensures !SameKey(rows'[i][ID], rows'[j][ID]) {
      assert !SameKey(rows[i][ID], rows[j][ID]);
      assert RowOk(rows[i], ids) && RowOk(rows[j], ids);
      if Width(c - 1) != Width(c) {
        PadIdKeepsKeys(rows[i][ID], rows[j][ID], p, w);
      }
    }
  }

  /** One row through the allocator for prefix `p`. */
  lemma AllocRowOk(r: Record, ids: map<char, nat>, p: char)
    requires RowOk(r, ids) && !IsNumeric(p)
    ensures var c := Counter(ids, p) + 1;
            var r' := if Width(c - 1) != Width(c) then r[ID := PadId(r[ID], p, Width(c))] else r;
            RowOk(r', ids[p := c]) && !SameKey(r'[ID], NewId(p, c))
  {
    var c := Counter(ids, p) + 1;
    if r[ID][0] != p {
      OtherPrefixOk(r, ids, p, c);
    } else if Width(c - 1) == Width(c) {
      SamePrefixOk(r, ids, p);
    } else {
      PaddedRowOk(r, ids, p);
    }
  }

  /** A row under another prefix is untouched by the allocator for `p`. */
  lemma OtherPrefixOk(r: Record, ids: map<char, nat>, p: char, c: nat)
    requires RowOk(r, ids) && r[ID][0] != p
    ensures RowOk(r, ids[p := c]) && !SameKey(r[ID], NewId(p, c))
    ensures r[ID := PadId(r[ID], p, Width(c))] == r
  {
    assert ids[p := c][r[ID][0]] == ids[r[ID][0]];
  }

  /** A row under `p` keeps its ID when the counter keeps its width, and its
      number is below the one issued. */
  lemma SamePrefixOk(r: Record, ids: map<char, nat>, p: char)
    requires RowOk(r, ids) && r[ID][0] == p && Width(ids[p]) == Width(ids[p] + 1)
    ensures RowOk(r, ids[p := ids[p] + 1]) && !SameKey(r[ID], NewId(p, ids[p] + 1))
  {
  }

  /** A row under `p` is re-padded to the new width when the counter gains
      a digit, keeping its number. */
  lemma PaddedRowOk(r: Record, ids: map<char, nat>, p: char)
    requires RowOk(r, ids) && r[ID][0] == p && Width(ids[p]) != Width(ids[p] + 1)
    ensures var c := ids[p] + 1;
            var r' := r[ID := PadId(r[ID], p, Width(c))];
            RowOk(r', ids[p := c]) && !SameKey(r'[ID], NewId(p, c))
  {
    var c := ids[p] + 1;
    var w := Width(c);
    WidthGrows(c - 1);
    assert Renamed(r[ID], p, w);
    var id' := PadId(r[ID], p, w);
    assert |id'| - 1 == w;
    assert SameKey(id', r[ID]);
  }

  /** Replacing row `k` by a row that is accounted for and whose key no other
      row has keeps the invariant. */
  lemma ReplaceKeepsIdsOk(rows: seq<Record>, ids: map<char, nat>, k: int, r: Record)
    requires IdsOk(rows, ids) && 0 <= k < |rows| && RowOk(r, ids)
    requires forall i :: 0 <= i < |rows| && i != k ==> !SameKey(rows[i][ID], r[ID])
    ensures IdsOk(rows[k := r], ids)
  {
    var rows' := rows[k := r];
    forall i, j | 0 <= i < j < |rows'| ensures !SameKey(rows'[i][ID], rows'[j][ID]) {
      if j == k {
        assert !SameKey(rows[i][ID], r[ID]);
      } else if i == k {
        assert !SameKey(rows[j][ID], r[ID]);
      }
    }
  }

  /** Appending a row that is accounted for and whose key no row has keeps the invariant. */
  lemma AppendKeepsIdsOk(rows: seq<Record>, ids: map<char, nat>, r: Record)
    requires IdsOk(rows, ids) && RowOk(r, ids)
    requires forall i :: 0 <= i < |rows| ==> !SameKey(rows[i][ID], r[ID])
    ensures IdsOk(rows + [r], ids)
  {
    var rows' := rows + [r];
    forall i, j | 0 <= i < j < |rows'| ensures !SameKey(rows'[i][ID], rows'[j][ID]) {
      if j == |rows| {
        assert rows'[i] == rows[i];
      } else {
        assert rows'[i] == rows[i] && rows'[j] == rows[j];
      }
    }
  }

  /** Dropping a row keeps the invariant. */
  lemma RemoveKeepsIdsOk(rows: seq<Record>, ids: map<char, nat>, k: int)
    requires IdsOk(rows, ids) && 0 <= k < |rows|
    ensures IdsOk(RemoveAt(rows, k), ids)
  {
    var rows' := RemoveAt(rows, k);
    forall i | 0 <= i < |rows'| ensures RowOk(rows'[i], ids) {
      var i0 := if i < k then i else i + 1;
      assert rows'[i] == rows[i0];
    }
    forall i, j | 0 <= i < j < |rows'| ensures !SameKey(rows'[i][ID], rows'[j][ID]) {
      var i0 := if i < k then i else i + 1;
      var j0 := if j < k then j else j + 1;
      assert rows'[i] == rows[i0] && rows'[j] == rows[j0];
    }
  }

  /** The invariant is about the set of rows, not their order. */
  lemma SortKeepsIdsOk(rows: seq<Record>, ids: map<char, nat>, col: Column)
    requires IdsOk(rows, ids)
    ensures IdsOk(SortRows(rows, col), ids)
  {
    SortKeepsDistinct(rows, col);
    var s := SortRows(rows, col);
    forall i | 0 <= i < |s| ensures RowOk(s[i], ids) {
      assert s[i] in multiset(rows);
    }
  }

  /** Changing fields other than ID and Location keeps the invariant. */
  lemma SetFieldsKeepsIdsOk(rows: seq<Record>, ids: map<char, nat>, k: int, r: Record)
    requires IdsOk(rows, ids) && 0 <= k < |rows|
    requires r[ID] == rows[k][ID] && r[LOCATION] == rows[k][LOCATION]
    ensures IdsOk(rows[k := r], ids)
  {
    forall i | 0 <= i < |rows| && i != k ensures !SameKey(rows[i][ID], r[ID]) {
      if i < k {
        assert !SameKey(rows[i][ID], rows[k][ID]);
      } else {
        assert !SameKey(rows[k][ID], rows[i][ID]);
      }
    }
    ReplaceKeepsIdsOk(rows, ids, k, r);
  }
}

/** Closing effect rows to exact operation sets. */
module EffectRows {
  import Bundle
  import opened ClosedTypes
  import opened Sequences

  /** One element of a module row: an operation, a group, or a row variable. */
  datatype RowElem = OpSlot(slot: nat) | GroupSlot(slot: nat) | RowVar(index: nat)

  // -------------------------------------------------------- sort and dedup

  function Insert(x: nat, s: Row): Row {
    if s == [] || x <= s[0] then [x] + s else [s[0]] + Insert(x, s[1..])
  }

  function Sort(s: Row): Row {
    if s == [] then [] else Insert(s[0], Sort(s[1..]))
  }

  /** Drop every element equal to the one before it. */
  function Dedup(s: Row): Row {
    if |s| <= 1 then s
    else if s[0] == s[1] then Dedup(s[1..])
    else [s[0]] + Dedup(s[1..])
  }

  function CanonicalRow(row: Row): Row {
    Dedup(Sort(row))
  }

  ghost predicate Strict(s: Row) {
    forall i, j :: 0 <= i < j < |s| ==> s[i] < s[j]
  }

  lemma {:induction false} InsertSorted(x: nat, s: Row)
    requires Sorted(s)
    ensures Sorted(Insert(x, s)) && multiset(Insert(x, s)) == multiset(s) + multiset{x}
    ensures Insert(x, s) != [] && (Insert(x, s)[0] == x || (s != [] && Insert(x, s)[0] == s[0]))
    decreases |s|
  {
    if s == [] || x <= s[0] {
      assert Insert(x, s) == [x] + s;
    } else {
      InsertSorted(x, s[1..]);
      var rest := Insert(x, s[1..]);
      assert s == [s[0]] + s[1..] && Insert(x, s) == [s[0]] + rest;
      SortedCons(s[0], rest);
    }
  }

  lemma SortedCons(x: nat, s: Row)
    requires Sorted(s) && (s == [] || x <= s[0])
    ensures Sorted([x] + s)
  {
    forall i, j | 0 <= i < j < |s| + 1 ensures ([x] + s)[i] <= ([x] + s)[j] {
      if i == 0 { assert s[0] <= s[j - 1]; }
    }
  }

  lemma {:induction false} SortSorts(s: Row)
    ensures Sorted(Sort(s)) && multiset(Sort(s)) == multiset(s)
    decreases |s|
  {
    if s != [] {
      assert s == [s[0]] + s[1..];
      SortSorts(s[1..]);
      InsertSorted(s[0], Sort(s[1..]));
    }
  }

  lemma {:induction false} DedupStrict(s: Row)
    requires Sorted(s)
    ensures Strict(Dedup(s)) && forall x :: x in Dedup(s) <==> x in s
    ensures s != [] ==> Dedup(s) != [] && Dedup(s)[0] == s[0]
    decreases |s|
  {
    if |s| > 1 {
      assert s == [s[0]] + s[1..];
      DedupStrict(s[1..]);
    }
  }

  /** A canonical row is strictly ascending and holds the same slots. */
  lemma CanonicalRowExact(row: Row)
    ensures Strict(CanonicalRow(row)) && forall x :: x in CanonicalRow(row) <==> x in row
  {
    SortSorts(row);
    DedupStrict(Sort(row));
    forall x ensures x in row <==> x in Sort(row) { assert x in row <==> x in multiset(row); }
  }

  /** A strictly ascending row is determined by the set of its slots, so the
      canonical row depends on that set only. */
  lemma {:induction false} StrictUnique(a: Row, b: Row)
    requires Strict(a) && Strict(b) && forall x :: x in a <==> x in b
    ensures a == b
    decreases |a|
  {
    if a == [] {
      assert forall i :: 0 <= i < |b| ==> b[i] in b;
    } else {
      assert a[0] in a && a[0] in b;
      assert b[0] in b && b[0] in a;
      forall x ensures x in a[1..] <==> x in b[1..] {
        StrictTail(a, x);
        StrictTail(b, x);
      }
      StrictUnique(a[1..], b[1..]);
      assert a == [a[0]] + a[1..] && b == [b[0]] + b[1..];
    }
  }

  lemma StrictTail(s: Row, x: nat)
    requires Strict(s) && s != []
    ensures x in s[1..] <==> x in s && x != s[0]
  {
    assert s == [s[0]] + s[1..];
  }

  // ------------------------------------------------------------ closing a row

  /** The slots one element stands for; an unknown group or an unbound variable
      stands for none. */
  function Slots(elem: RowElem, rows: seq<Row>, groups: seq<seq<bool>>): Row {
    match elem
    case OpSlot(slot) => [slot]
    case GroupSlot(slot) => if slot < |groups| then Bundle.Positions(groups[slot]) else []
    case RowVar(i) => if i < |rows| then rows[i] else []
  }

  function Flat(row: seq<RowElem>, rows: seq<Row>, groups: seq<seq<bool>>): Row {
    if row == [] then []
    else
      var last := |row| - 1;
      Flat(row[..last], rows, groups) + Slots(row[last], rows, groups)
  }

  /** The closed row of a module row under the row arguments `rows`. */
  function ClosedRow(row: seq<RowElem>, rows: seq<Row>, groups: seq<seq<bool>>): Row {
    CanonicalRow(Flat(row, rows, groups))
  }

  /** Close one module effect row. */
  method CloseRow(row: seq<RowElem>, rows: seq<Row>, groups: seq<seq<bool>>) returns (r: Row)
    ensures r == ClosedRow(row, rows, groups)
  {
    var out: Row := [];
    for k := 0 to |row|
      invariant out == Flat(row[..k], rows, groups)
    {
      assert row[..k + 1][..k] == row[..k];
      match row[k] {
        case OpSlot(slot) => out := out + [slot];
        case GroupSlot(slot) =>
          if slot < |groups| { out := out + Bundle.Positions(groups[slot]); }
        case RowVar(i) =>
          if i < |rows| { out := out + rows[i]; }
      }
    }
    assert row[..|row|] == row;
    r := CanonicalRow(out);
  }

  /** One element stands for this slot. */
  ghost predicate Stands(elem: RowElem, rows: seq<Row>, groups: seq<seq<bool>>, slot: nat) {
    match elem
    case OpSlot(s) => slot == s
    case GroupSlot(g) => g < |groups| && slot < |groups[g]| && groups[g][slot]
    case RowVar(i) => i < |rows| && slot in rows[i]
  }

  ghost predicate Covers(row: seq<RowElem>, rows: seq<Row>, groups: seq<seq<bool>>, slot: nat) {
    exists k :: 0 <= k < |row| && Stands(row[k], rows, groups, slot)
  }

  lemma {:induction false} FlatExact(row: seq<RowElem>, rows: seq<Row>, groups: seq<seq<bool>>, slot: nat)
    ensures slot in Flat(row, rows, groups) <==> Covers(row, rows, groups, slot)
    decreases |row|
  {
    hide Slots, Stands, Covers;
    if row == [] {
      CoversNone(rows, groups, slot);
    } else {
      var last := |row| - 1;
      FlatExact(row[..last], rows, groups, slot);
      SlotsExact(row[last], rows, groups, slot);
      CoversLast(row, rows, groups, slot);
    }
  }

  lemma CoversNone(rows: seq<Row>, groups: seq<seq<bool>>, slot: nat)
    ensures !Covers([], rows, groups, slot)
  {
  }

  lemma SlotsExact(elem: RowElem, rows: seq<Row>, groups: seq<seq<bool>>, slot: nat)
    ensures slot in Slots(elem, rows, groups) <==> Stands(elem, rows, groups, slot)
  {
  }

  lemma CoversLast(row: seq<RowElem>, rows: seq<Row>, groups: seq<seq<bool>>, slot: nat)
    requires row != []
    ensures var last := |row| - 1;
      Covers(row, rows, groups, slot) <==>
        Covers(row[..last], rows, groups, slot) || Stands(row[last], rows, groups, slot)
  {
    hide Stands;
    var last := |row| - 1;
    if Covers(row, rows, groups, slot) {
      var k :| 0 <= k < |row| && Stands(row[k], rows, groups, slot);
      if k < last { assert row[..last][k] == row[k]; }
    }
    if Covers(row[..last], rows, groups, slot) {
      var k :| 0 <= k < last && Stands(row[..last][k], rows, groups, slot);
      assert row[..last][k] == row[k];
    }
  }

  /** A closed row is sorted without repeats and holds exactly the operations
      its elements stand for. */
  lemma ClosedRowExact(row: seq<RowElem>, rows: seq<Row>, groups: seq<seq<bool>>)
    ensures Strict(ClosedRow(row, rows, groups))
    ensures forall slot :: slot in ClosedRow(row, rows, groups) <==> Covers(row, rows, groups, slot)
  {
    hide Strict, CanonicalRow, Flat, Covers;
    CanonicalRowExact(Flat(row, rows, groups));
    forall slot ensures slot in ClosedRow(row, rows, groups) <==> Covers(row, rows, groups, slot) {
      FlatExact(row, rows, groups, slot);
    }
  }

  /** Rows whose elements stand for the same operations close to the same row. */
  lemma ClosedRowUnique(a: seq<RowElem>, b: seq<RowElem>, rows: seq<Row>, groups: seq<seq<bool>>)
    requires forall slot :: Covers(a, rows, groups, slot) <==> Covers(b, rows, groups, slot)
    ensures ClosedRow(a, rows, groups) == ClosedRow(b, rows, groups)
  {
    hide Strict, ClosedRow, Covers;
    ClosedRowExact(a, rows, groups);
    ClosedRowExact(b, rows, groups);
    StrictUnique(ClosedRow(a, rows, groups), ClosedRow(b, rows, groups));
  }
}

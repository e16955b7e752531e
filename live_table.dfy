/**
 * The live table of measurements: a `ttk.Treeview` whose rows are kept in
 * the order of one selected column.  `add_row` inserts each new
 * measurement where a binary search on that column puts it, and clicking
 * a heading re-sorts every row by the clicked column, in the direction
 * opposite to the previous one.  The tree is modelled as the sequence of
 * its rows, each with its item identifier and the text of its cells.
 */
module LiveTable {
  import opened Common
  import opened StringOrder
  import opened Bisect

  /** The columns: datetime, wattage, current, voltage. */
  const ColumnCount: nat := 4

  /**
   * The cells of the row `add_row` builds, as the tree holds them: the
   * timestamp, the wattage rounded to 3 places, the current truncated to
   * an integer, and the voltage rounded to 2 places, each as its text.
   */
  datatype Measurement = Measurement(timestamp: string, wattage: string, current: string, voltage: string)

  function Cells(m: Measurement): seq<string>
  {
    [m.timestamp, m.wattage, m.current, m.voltage]
  }

  /** An item of the tree: its identifier and its cells. */
  datatype Row = Row(id: nat, cells: seq<string>)

  /** `tree.set(item, column)`: the text of one cell, "" for a cell the row lacks. */
  function Cell(r: Row, c: nat): string
  {
    if c < |r.cells| then r.cells[c] else ""
  }

  /** `[tree.set(k, c) for k in tree.get_children('')]`. */
  function Column(rows: seq<Row>, c: nat): (col: seq<string>)
    ensures |col| == |rows| && forall i :: 0 <= i < |rows| ==> col[i] == Cell(rows[i], c)
    decreases rows
  {
    if rows == [] then [] else [Cell(rows[0], c)] + Column(rows[1..], c)
  }

  /** The rows are in the order of column `c`, ascending or descending. */
  predicate SortedBy(rows: seq<Row>, c: nat, reversed: bool)
  {
    Sorted(Column(rows, c), reversed)
  }

  predicate DistinctIds(rows: seq<Row>)
  {
    forall j, k :: 0 <= j < k < |rows| ==> rows[j].id != rows[k].id
  }

  /** `tree.insert('', index=i, ...)`. */
  function InsertAt(rows: seq<Row>, i: nat, r: Row): seq<Row>
    requires i <= |rows|
  {
    rows[..i] + [r] + rows[i..]
  }

  /**
   * Where `add_row` puts a row whose cell in column `c` is `key`: in front
   * of the first row whose cell does not sort before the key.
   */
  function InsertIndex(rows: seq<Row>, c: nat, key: string, reversed: bool): nat
  {
    LowerBound(Column(rows, c), key, reversed)
  }

  // ---------------------------------------------------------------------
  // Insertion

  lemma ColumnOfInsert(rows: seq<Row>, i: nat, r: Row, c: nat)
    requires i <= |rows|
    ensures Column(InsertAt(rows, i, r), c) == Column(rows, c)[..i] + [Cell(r, c)] + Column(rows, c)[i..]
  {
    var t := InsertAt(rows, i, r);
    var col := Column(rows, c);
    var u := col[..i] + [Cell(r, c)] + col[i..];
    forall j | 0 <= j < |t|
      ensures Column(t, c)[j] == u[j]
    {
      if j < i {
        assert t[j] == rows[j];
      } else if j > i {
        assert t[j] == rows[j - 1];
      }
    }
  }

  /** Inserting at the index `add_row` computes keeps the rows in the order of the column. */
  lemma InsertKeepsOrder(rows: seq<Row>, c: nat, r: Row, reversed: bool)
    requires SortedBy(rows, c, reversed)
    ensures InsertIndex(rows, c, Cell(r, c), reversed) <= |rows|
    ensures SortedBy(InsertAt(rows, InsertIndex(rows, c, Cell(r, c), reversed), r), c, reversed)
  {
    var i := InsertIndex(rows, c, Cell(r, c), reversed);
    ColumnOfInsert(rows, i, r, c);
    SortedInsertLower(Column(rows, c), Cell(r, c), reversed);
  }

  /**
   * The new row goes in front of every row with an equal cell, ascending
   * or descending: every row before it sorts strictly before the key.
   */
  lemma InsertBeforeEqualKeys(rows: seq<Row>, c: nat, key: string, reversed: bool)
    ensures forall j :: 0 <= j < |rows| && Cell(rows[j], c) == key ==> InsertIndex(rows, c, key, reversed) <= j
  {
    BeforeIrreflexive(key, reversed);
  }

  /**
   * Every row from the insertion index on does not sort before the key,
   * so the index is the one place the sorted column admits in front of
   * rows with equal cells.
   */
  lemma InsertIndexSplits(rows: seq<Row>, c: nat, key: string, reversed: bool)
    requires SortedBy(rows, c, reversed)
    ensures var i := InsertIndex(rows, c, key, reversed);
      && i <= |rows|
      && (forall j :: 0 <= j < i ==> Before(Cell(rows[j], c), key, reversed))
      && (forall j :: i <= j < |rows| ==> !Before(Cell(rows[j], c), key, reversed))
  {
    LowerBoundSplits(Column(rows, c), key, reversed);
  }

  /** Ascending, a key above every cell is appended at the end. */
  lemma GreatestKeyAscending(rows: seq<Row>, c: nat, key: string)
    requires forall j :: 0 <= j < |rows| ==> Below(Cell(rows[j], c), key)
    ensures InsertIndex(rows, c, key, false) == |rows|
  {
    var col := Column(rows, c);
    forall j | 0 <= j < |col|
      ensures Before(col[j], key, false)
    {
      assert col[j] == Cell(rows[j], c);
    }
  }

  /** Descending, a key at least every cell is placed first. */
  lemma GreatestKeyDescending(rows: seq<Row>, c: nat, key: string)
    requires forall j :: 0 <= j < |rows| ==> !Below(key, Cell(rows[j], c))
    ensures InsertIndex(rows, c, key, true) == 0
  {
    var col := Column(rows, c);
    if rows != [] {
      assert col[0] == Cell(rows[0], c);
    }
  }

  /** A row with a new identifier keeps the identifiers distinct. */
  lemma InsertKeepsIdsDistinct(rows: seq<Row>, i: nat, r: Row)
    requires i <= |rows| && DistinctIds(rows) && forall x | x in rows :: x.id != r.id
    ensures DistinctIds(InsertAt(rows, i, r))
  {
    var t := InsertAt(rows, i, r);
    forall j, k | 0 <= j < k < |t|
      ensures t[j].id != t[k].id
    {
      if j < i {
        assert t[j] == rows[j];
      } else if j > i {
        assert t[j] == rows[j - 1];
      }
      if k < i {
        assert t[k] == rows[k];
      } else if k > i {
        assert t[k] == rows[k - 1];
      }
    }
  }

  // ---------------------------------------------------------------------
  // Stable sort

  /**
   * `list.sort(key=..., reverse=reversed)` by column `c`, as an insertion
   * sort from the last row to the first: each row goes in front of the
   * sorted rows whose cells do not sort before its own, where `add_row`
   * would put it.
   */
  function SortBy(rows: seq<Row>, c: nat, reversed: bool): (s: seq<Row>)
    ensures |s| == |rows|
    decreases rows
  {
    if rows == [] then []
    else
      var t := SortBy(rows[1..], c, reversed);
      InsertAt(t, InsertIndex(t, c, Cell(rows[0], c), reversed), rows[0])
  }

  /** The identifiers of the rows whose cell in column `c` is `key`, in order. */
  function WithCell(rows: seq<Row>, c: nat, key: string): seq<nat>
    decreases rows
  {
    if rows == [] then []
    else (if Cell(rows[0], c) == key then [rows[0].id] else []) + WithCell(rows[1..], c, key)
  }

  lemma {:induction false} SortBySorted(rows: seq<Row>, c: nat, reversed: bool)
    ensures SortedBy(SortBy(rows, c, reversed), c, reversed)
    decreases rows
  {
    if rows != [] {
      SortBySorted(rows[1..], c, reversed);
      InsertKeepsOrder(SortBy(rows[1..], c, reversed), c, rows[0], reversed);
    }
  }

  lemma {:induction false} SortByPermutes(rows: seq<Row>, c: nat, reversed: bool)
    ensures multiset(SortBy(rows, c, reversed)) == multiset(rows)
    decreases rows
  {
    if rows != [] {
      var t := SortBy(rows[1..], c, reversed);
      SortByPermutes(rows[1..], c, reversed);
      InsertMembers(t, InsertIndex(t, c, Cell(rows[0], c), reversed), rows[0]);
      SplitFirst(rows);
    }
  }

  lemma {:induction false} WithCellConcat(a: seq<Row>, b: seq<Row>, c: nat, key: string)
    ensures WithCell(a + b, c, key) == WithCell(a, c, key) + WithCell(b, c, key)
    decreases a
  {
    if a == [] {
      PrependEmpty(a, b);
    } else {
      ConcatFirst(a, b);
      WithCellConcat(a[1..], b, c, key);
      var h := if Cell(a[0], c) == key then [a[0].id] else [];
      assert h + (WithCell(a[1..], c, key) + WithCell(b, c, key))
        == (h + WithCell(a[1..], c, key)) + WithCell(b, c, key);
    }
  }

  lemma {:induction false} WithCellNone(a: seq<Row>, c: nat, key: string)
    requires forall j :: 0 <= j < |a| ==> Cell(a[j], c) != key
    ensures WithCell(a, c, key) == []
    decreases a
  {
    if a != [] {
      assert forall j :: 0 <= j < |a[1..]| ==> a[1..][j] == a[j + 1];
      WithCellNone(a[1..], c, key);
    }
  }

  /** A row alone is kept exactly when its cell is the key. */
  lemma WithCellOfOne(r: Row, c: nat, key: string)
    ensures WithCell([r], c, key) == if Cell(r, c) == key then [r.id] else []
  {
    assert [r][1..] == [];
  }

  /** In front of the insertion index of a row's cell no row has an equal cell. */
  lemma NoEqualCellBeforeIndex(t: seq<Row>, r: Row, c: nat, reversed: bool)
    ensures var i := InsertIndex(t, c, Cell(r, c), reversed);
      i <= |t| && WithCell(t[..i], c, Cell(r, c)) == []
  {
    var col := Column(t, c);
    var key := Cell(r, c);
    var i := InsertIndex(t, c, key, reversed);
    BeforeIrreflexive(key, reversed);
    forall j | 0 <= j < |t[..i]|
      ensures Cell(t[..i][j], c) != key
    {
      assert t[..i][j] == t[j] && col[j] == Cell(t[j], c);
    }
    WithCellNone(t[..i], c, key);
  }

  /** Inserting a row where no equal row precedes it makes it first among its equals. */
  lemma WithCellOfInsertAt(t: seq<Row>, i: nat, r: Row, c: nat, key: string)
    requires i <= |t| && (Cell(r, c) == key ==> WithCell(t[..i], c, key) == [])
    ensures WithCell(InsertAt(t, i, r), c, key) == WithCell([r], c, key) + WithCell(t, c, key)
  {
    var front, back := t[..i], t[i..];
    InsertShape(t, i, r);
    WithCellConcat(front, [r] + back, c, key);
    WithCellConcat([r], back, c, key);
    WithCellConcat(front, back, c, key);
    WithCellOfOne(r, c, key);
    var wf, wr, wb := WithCell(front, c, key), WithCell([r], c, key), WithCell(back, c, key);
    if Cell(r, c) == key {
      assert wf + (wr + wb) == wr + (wf + wb);
    } else {
      assert wr == [];
      assert wf + ([] + wb) == [] + (wf + wb);
    }
  }

  /** Putting a row in front of the rows whose cells do not sort before its own makes it first among its equals. */
  lemma WithCellOfInsert(t: seq<Row>, r: Row, c: nat, key: string, reversed: bool)
    ensures var i := InsertIndex(t, c, Cell(r, c), reversed);
      i <= |t| && WithCell(InsertAt(t, i, r), c, key) == WithCell([r], c, key) + WithCell(t, c, key)
  {
    NoEqualCellBeforeIndex(t, r, c, reversed);
    WithCellOfInsertAt(t, InsertIndex(t, c, Cell(r, c), reversed), r, c, key);
  }

  /** The sort is stable: rows with equal cells keep their relative order. */
  lemma {:induction false} SortByStable(rows: seq<Row>, c: nat, reversed: bool, key: string)
    ensures WithCell(SortBy(rows, c, reversed), c, key) == WithCell(rows, c, key)
    decreases rows
  {
    if rows != [] {
      SortByStable(rows[1..], c, reversed, key);
      WithCellOfInsert(SortBy(rows[1..], c, reversed), rows[0], c, key, reversed);
      WithCellOfOne(rows[0], c, key);
    }
  }

  // ---------------------------------------------------------------------
  // Moving rows

  /** The position of the first row with the identifier, or the length when there is none. */
  function Position(rows: seq<Row>, id: nat): (p: nat)
    ensures p <= |rows| && (p < |rows| ==> rows[p].id == id)
    ensures forall j :: 0 <= j < p ==> rows[j].id != id
    decreases rows
  {
    if rows == [] || rows[0].id == id then 0 else 1 + Position(rows[1..], id)
  }

  /** `tree.move(id, '', index)`: take the item out and put it back at `index` among the others. */
  function Move(rows: seq<Row>, id: nat, index: nat): seq<Row>
    requires Position(rows, id) < |rows| && index < |rows|
  {
    Reinsert(rows, Position(rows, id), index)
  }

  /** A permutation of rows with distinct identifiers has distinct identifiers. */
  lemma PermutationKeepsIdsDistinct(rows: seq<Row>, l: seq<Row>)
    requires DistinctIds(rows) && multiset(l) == multiset(rows)
    ensures DistinctIds(l)
  {
    forall j, k | 0 <= j < k < |l|
      ensures l[j].id != l[k].id
    {
      assert l[j] in multiset(rows) && l[k] in multiset(rows);
      TwoOccurrences(rows, l[j]);
      CountedTwice(l, j, k);
      SameIdSameRow(rows, l[j], l[k]);
    }
  }

  /** An item at two positions is counted at least twice. */
  lemma CountedTwice<T>(l: seq<T>, j: nat, k: nat)
    requires j < k < |l|
    ensures l[j] == l[k] ==> multiset(l)[l[j]] >= 2
  {
    var rest := l[..j] + l[j + 1..];
    assert l == l[..j] + [l[j]] + l[j + 1..];
    assert l[k] == rest[k - 1];
    assert multiset(l)[l[j]] == multiset(rest)[l[j]] + 1;
  }

  /** With distinct identifiers, two rows with the same identifier are the same row. */
  lemma SameIdSameRow(rows: seq<Row>, x: Row, y: Row)
    requires DistinctIds(rows) && x in rows && y in rows
    ensures x.id == y.id ==> x == y
  {
    OnePerId(rows, x);
    OnePerId(rows, y);
  }

  /** With distinct identifiers, the row with a row's identifier is that row. */
  lemma OnePerId(rows: seq<Row>, x: Row)
    requires DistinctIds(rows) && x in rows
    ensures Position(rows, x.id) < |rows| && rows[Position(rows, x.id)] == x
  {
    var q :| 0 <= q < |rows| && rows[q] == x;
    var p := Position(rows, x.id);
    assert p <= q;
  }

  /** With distinct identifiers no row occurs twice. */
  lemma TwoOccurrences(rows: seq<Row>, x: Row)
    requires DistinctIds(rows)
    ensures multiset(rows)[x] <= 1
    decreases |rows|
  {
    if rows != [] {
      assert rows == [rows[0]] + rows[1..];
      assert DistinctIds(rows[1..]) by {
        forall j, k | 0 <= j < k < |rows[1..]|
          ensures rows[1..][j].id != rows[1..][k].id
        {
          assert rows[1..][j] == rows[j + 1] && rows[1..][k] == rows[k + 1];
        }
      }
      TwoOccurrences(rows[1..], x);
      forall k | 0 <= k < |rows[1..]|
        ensures rows[1..][k].id != rows[0].id
      {
        assert rows[1..][k] == rows[k + 1];
      }
    }
  }

  /** Under the loop's invariant the row to move next is found at or after position `i`. */
  lemma FindNext(rows: seq<Row>, l: seq<Row>, i: nat) returns (p: nat)
    requires |rows| == |l| && i < |l| && DistinctIds(l)
    requires rows[..i] == l[..i] && multiset(rows[i..]) == multiset(l[i..])
    ensures p == Position(rows, l[i].id) && i <= p < |rows| && rows[p] == l[i]
  {
    assert l[i] == l[i..][0];
    assert l[i] in multiset(rows[i..]);
    var k :| 0 <= k < |rows[i..]| && rows[i..][k] == l[i];
    assert rows[i + k] == l[i];
    p := Position(rows, l[i].id);
    forall j | 0 <= j < i
      ensures rows[j].id != l[i].id
    {
      assert rows[j] == l[j];
    }
    assert rows[p] == rows[i..][p - i];
    assert rows[p] in multiset(l[i..]);
    var k' :| 0 <= k' < |l[i..]| && l[i..][k'] == rows[p];
    assert l[i + k'] == rows[p];
  }

  /** The item at `p` moved to `index`, the others keeping their order. */
  function Reinsert<T>(s: seq<T>, p: nat, index: nat): (r: seq<T>)
    requires p < |s| && index < |s|
    ensures |r| == |s|
  {
    var rest := s[..p] + s[p + 1..];
    rest[..index] + [s[p]] + rest[index..]
  }

  /** The loop invariant of `sort_column`: the first `i` items are in their final places, the rest a permutation of the remaining ones. */
  ghost predicate Placed<T>(s: seq<T>, l: seq<T>, i: nat)
  {
    |s| == |l| && i <= |l| && s[..i] == l[..i] && multiset(s[i..]) == multiset(l[i..])
  }

  /** Before the loop nothing is in place yet. */
  lemma PlacedAtStart<T>(s: seq<T>, l: seq<T>)
    requires multiset(s) == multiset(l)
    ensures Placed(s, l, 0)
  {
    assert |s| == |multiset(s)| == |multiset(l)| == |l|;
    assert s[0..] == s && l[0..] == l;
  }

  /** After the loop every item is in place. */
  lemma PlacedAtEnd<T>(s: seq<T>, l: seq<T>)
    requires Placed(s, l, |l|)
    ensures s == l
  {
    assert s == s[..|l|] && l == l[..|l|];
  }

  /** Moving the item at `p >= i` to `i`: the first `i` items, that item, and the others in order. */
  lemma ReinsertShape<T>(s: seq<T>, p: nat, i: nat)
    requires i <= p < |s|
    ensures Reinsert(s, p, i) == s[..i] + [s[p]] + (s[i..p] + s[p + 1..])
    ensures multiset(s[i..]) == multiset(s[i..p] + s[p + 1..]) + multiset{s[p]}
  {
    var rest := s[..p] + s[p + 1..];
    assert rest[..i] == s[..i];
    assert rest[i..] == s[i..p] + s[p + 1..];
    assert s[i..] == s[i..p] + [s[p]] + s[p + 1..];
  }

  /** Putting the next item in place extends the finished prefix and leaves a permutation of the rest. */
  lemma PlaceNext<T>(prefix: seq<T>, x: T, tail: seq<T>, l: seq<T>, i: nat)
    requires i < |l| && |prefix| == i && prefix == l[..i] && x == l[i]
    requires |prefix| + 1 + |tail| == |l|
    requires multiset(tail) + multiset{x} == multiset(l[i..])
    ensures Placed(prefix + [x] + tail, l, i + 1)
  {
    var m := prefix + [x] + tail;
    assert m[..i + 1] == prefix + [x];
    assert l[..i + 1] == l[..i] + [l[i]];
    assert m[i + 1..] == tail;
    SplitFirst(l[i..]);
    assert l[i..][1..] == l[i + 1..];
    MultisetCancel(multiset(tail), multiset(l[i + 1..]), x);
  }

  lemma MultisetCancel<T>(a: multiset<T>, b: multiset<T>, x: T)
    requires a + multiset{x} == multiset{x} + b
    ensures a == b
  {
    assert a == a + multiset{x} - multiset{x};
  }

  /** Moving the item that belongs at `i`, found at `p`, to `i` extends the prefix in place. */
  lemma ReinsertStep<T>(s: seq<T>, l: seq<T>, p: nat, i: nat)
    requires Placed(s, l, i) && i <= p < |s| && s[p] == l[i]
    ensures Placed(Reinsert(s, p, i), l, i + 1)
  {
    ReinsertShape(s, p, i);
    PlaceNext(s[..i], s[p], s[i..p] + s[p + 1..], l, i);
  }

  /**
   * One round of the loop in `sort_column`: moving the next sorted row to
   * position `i` extends the prefix that is in place.
   */
  lemma MoveStep(rows: seq<Row>, l: seq<Row>, i: nat)
    requires Placed(rows, l, i) && i < |l| && DistinctIds(l)
    ensures Position(rows, l[i].id) < |rows|
    ensures Placed(Move(rows, l[i].id, i), l, i + 1)
  {
    var p := FindNext(rows, l, i);
    ReinsertStep(rows, l, p, i);
  }

  /**
   * The loop of `sort_column`: for each row of the sorted list in turn,
   * move the tree item with its identifier to that row's index.  It puts
   * the tree in the sorted order.
   */
  method MoveAll(rows: seq<Row>, l: seq<Row>) returns (children: seq<Row>)
    requires multiset(rows) == multiset(l) && DistinctIds(l)
    ensures children == l
  {
    children := rows;
    PlacedAtStart(children, l);
    var i := 0;
    while i < |l|
      invariant 0 <= i <= |l| && Placed(children, l, i)
    {
      MoveStep(children, l, i);
      children := Move(children, l[i].id, i);
      i := i + 1;
    }
    PlacedAtEnd(children, l);
  }

  /**
   * The body of `sort_column` on the rows: sort a copy of them stably by
   * the column, then move the tree's items into that order one by one.
   */
  method SortRows(rows: seq<Row>, c: nat, reversed: bool) returns (children: seq<Row>)
    requires DistinctIds(rows)
    ensures children == SortBy(rows, c, reversed)
  {
    var l := SortBy(rows, c, reversed);
    SortByPermutes(rows, c, reversed);
    PermutationKeepsIdsDistinct(rows, l);
    children := MoveAll(rows, l);
  }

  // ---------------------------------------------------------------------
  // The table

  /**
   * The search in `add_row`.  Ascending, `bisect_left` on the column;
   * descending, `bisect_right` on the reversed column, counted from the
   * end.  Either way the result is the leftmost place the key can go.
   */
  method SearchColumn(column: seq<string>, key: string, reversed: bool) returns (index: nat)
    requires Sorted(column, reversed)
    ensures index == LowerBound(column, key, reversed)
  {
    if reversed {
      ReverseOfDescending(column);
      var reversedIndex := BisectRight(Reverse(column), key);
      DescendingLowerBound(column, key);
      index := |column| - reversedIndex;
    } else {
      index := BisectLeft(column, key);
    }
  }

  predicate IdsBelow(rows: seq<Row>, n: nat)
  {
    forall x | x in rows :: x.id < n
  }

  /** The rows are ordered by the selected column in the current direction, and identifiers are unique and issued. */
  predicate TableInvariant(rows: seq<Row>, nextId: nat, selected: nat, reversed: bool)
  {
    && selected < ColumnCount
    && SortedBy(rows, selected, reversed)
    && DistinctIds(rows)
    && IdsBelow(rows, nextId)
  }

  /** `add_row` keeps the invariant. */
  lemma InsertKeepsInvariant(rows: seq<Row>, nextId: nat, selected: nat, reversed: bool, cells: seq<string>)
    requires TableInvariant(rows, nextId, selected, reversed)
    ensures var r := Row(nextId, cells); var i := InsertIndex(rows, selected, Cell(r, selected), reversed);
      i <= |rows| && TableInvariant(InsertAt(rows, i, r), nextId + 1, selected, reversed)
  {
    var r := Row(nextId, cells);
    var i := InsertIndex(rows, selected, Cell(r, selected), reversed);
    InsertKeepsOrder(rows, selected, r, reversed);
    InsertKeepsIdsDistinct(rows, i, r);
    InsertMembers(rows, i, r);
    var t := InsertAt(rows, i, r);
    forall x | x in t
      ensures x.id < nextId + 1
    {
      assert x in multiset(t);
    }
  }

  /** `sort_column` keeps the invariant with the clicked column and the new direction. */
  lemma SortKeepsInvariant(rows: seq<Row>, nextId: nat, selected: nat, reversed: bool, c: nat, direction: bool)
    requires TableInvariant(rows, nextId, selected, reversed) && c < ColumnCount
    ensures TableInvariant(SortBy(rows, c, direction), nextId, c, direction)
  {
    var l := SortBy(rows, c, direction);
    SortByPermutes(rows, c, direction);
    SortBySorted(rows, c, direction);
    PermutationKeepsIdsDistinct(rows, l);
    forall x | x in l
      ensures x.id < nextId
    {
      assert x in multiset(rows);
    }
  }

  /** The tree and the sort state of the window. */
  class Table {
    /** The tree's rows, top to bottom. */
    var rows: seq<Row>
    /** The identifier the next inserted item gets. */
    var nextId: nat
    /** `selected_column`: the column the rows are ordered by. */
    var selectedColumn: nat
    /** `column_reversed`: whether that order is descending. */
    var columnReversed: bool

    predicate Valid()
      reads this
    {
      TableInvariant(rows, nextId, selectedColumn, columnReversed)
    }

    /** An empty tree, ordered by the datetime column, descending. */
    constructor()
      ensures Valid()
      ensures rows == [] && selectedColumn == 0 && columnReversed
    {
      rows := [];
      nextId := 0;
      selectedColumn := 0;
      columnReversed := true;
    }

    /**
     * `add_row`: search the selected column for the new row's place and
     * insert it there.  Ascending, `bisect_left` on the column; descending,
     * `bisect_right` on the reversed column, counted from the end.
     */
    method AddRow(m: Measurement) returns (index: nat)
      requires Valid()
      modifies this
      ensures Valid()
      ensures index == InsertIndex(old(rows), selectedColumn, Cells(m)[selectedColumn], columnReversed)
      ensures index <= |old(rows)|
      ensures rows == InsertAt(old(rows), index, Row(old(nextId), Cells(m)))
      ensures selectedColumn == old(selectedColumn) && columnReversed == old(columnReversed)
    {
      var current := rows;
      var key := Cells(m)[selectedColumn];
      index := SearchColumn(Column(current, selectedColumn), key, columnReversed);
      assert index == InsertIndex(current, selectedColumn, key, columnReversed);
      var r := Row(nextId, Cells(m));
      assert Cell(r, selectedColumn) == key;
      InsertKeepsInvariant(current, nextId, selectedColumn, columnReversed, Cells(m));
      assert TableInvariant(InsertAt(current, index, r), nextId + 1, selectedColumn, columnReversed);
      rows, nextId := InsertAt(current, index, r), nextId + 1;
      assert TableInvariant(rows, nextId, selectedColumn, columnReversed);
    }

    /**
     * `sort_column`: flip the direction, stably sort the rows by the
     * clicked column, move each row to its place in turn, and remember the
     * column and the direction.
     */
    method SortColumn(c: nat)
      requires Valid() && c < ColumnCount
      modifies this
      ensures Valid()
      ensures columnReversed == !old(columnReversed) && selectedColumn == c
      ensures rows == SortBy(old(rows), c, columnReversed)
      ensures nextId == old(nextId)
    {
      var current, isReverse := rows, !columnReversed;
      SortKeepsInvariant(current, nextId, selectedColumn, columnReversed, c, isReverse);
      var children := SortRows(current, c, isReverse);
      rows, selectedColumn, columnReversed := children, c, isReverse;
      assert TableInvariant(rows, nextId, selectedColumn, columnReversed);
    }

    /** The clear button: delete every row. */
    method Clear()
      requires Valid()
      modifies this
      ensures Valid()
      ensures rows == [] && selectedColumn == old(selectedColumn) && columnReversed == old(columnReversed)
    {
      rows := [];
    }
  }
}

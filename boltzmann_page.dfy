/**
  The logic of the Boltzmann-distribution page: panels are packed into rows
  of at most `max_col` one-panel columns (`add_to_container`), a panel is
  deleted by re-packing all the others (`remove_from_container`), the table
  lists the (energy, population) pairs in sorted order (`update_table`), and
  a plot is drawn only for inputs inside the page's ranges
  (`update_plot_table`).

  A container is a list of rows; a row is the list of the panels of its
  columns (each column holds exactly one panel). The container list is the
  object that `add_to_container` changes in place, so it is the class
  `Container` here; rows are values.
*/
module BoltzmannPage {
  import opened Wrappers
  import opened BoltzmannModel

  /** A panel, identified by the uid of its delete button. */
  datatype Panel = Panel(uid: int)

  type Rows = seq<seq<Panel>>

  /** The default `max_col`, used by `remove_from_container`. */
  const MaxCol: nat := 2

  // ---------------------------------------------------------------------
  // Packing as values
  // ---------------------------------------------------------------------

  /** The panels of a container, row by row, left to right. */
  function Flatten(rows: Rows): seq<Panel>
  {
    if rows == [] then [] else Flatten(rows[..|rows| - 1]) + rows[|rows| - 1]
  }

  lemma FlattenAppend(rows: Rows, row: seq<Panel>)
    ensures Flatten(rows + [row]) == Flatten(rows) + row
  {
    assert (rows + [row])[..|rows|] == rows;
  }

  /** The rows `add_to_container` produces: a first row for an empty
      container, a new row when the last one has `maxCol` columns, and
      otherwise the last row grown by one column. */
  function Added(rows: Rows, item: Panel, maxCol: nat): (r: Rows)
    ensures Flatten(r) == Flatten(rows) + [item]
    ensures |rows| <= |r| <= |rows| + 1 && r != []
    ensures rows != [] ==> r[..|rows| - 1] == rows[..|rows| - 1]
  {
    if rows == [] then
      FlattenAppend([], [item]);
      [[item]]
    else if |rows[|rows| - 1]| == maxCol then
      FlattenAppend(rows, [item]);
      rows + [[item]]
    else
      var front, last := rows[..|rows| - 1], rows[|rows| - 1];
      FlattenAppend(front, last);
      FlattenAppend(front, last + [item]);
      assert rows == front + [last];
      front + [last + [item]]
  }

  /** Every row but the last is full, and the last holds 1..maxCol panels. */
  predicate Canonical(rows: Rows, maxCol: nat)
  {
    forall k :: 0 <= k < |rows| ==>
      if k < |rows| - 1 then |rows[k]| == maxCol else 1 <= |rows[k]| <= maxCol
  }

  /** Adding keeps a canonical container canonical. */
  lemma AddedCanonical(rows: Rows, item: Panel, maxCol: nat)
    requires maxCol >= 1 && Canonical(rows, maxCol)
    ensures Canonical(Added(rows, item, maxCol), maxCol)
  {
    var r := Added(rows, item, maxCol);
    if rows != [] && |rows[|rows| - 1]| != maxCol {
      forall k | 0 <= k < |r|
        ensures if k < |r| - 1 then |r[k]| == maxCol else 1 <= |r[k]| <= maxCol
      {
        if k < |r| - 1 {
          assert r[k] == rows[k];
        }
      }
    }
  }

  /** Packing a list of panels one by one from an empty container. */
  function Pack(items: seq<Panel>, maxCol: nat): (r: Rows)
    ensures Flatten(r) == items
    ensures maxCol >= 1 ==> Canonical(r, maxCol)
    ensures r == [] <==> items == []
  {
    if items == [] then []
    else
      var p := Pack(items[..|items| - 1], maxCol);
      assert maxCol >= 1 ==> Canonical(Added(p, items[|items| - 1], maxCol), maxCol) by {
        if maxCol >= 1 {
          AddedCanonical(p, items[|items| - 1], maxCol);
        }
      }
      assert items == items[..|items| - 1] + [items[|items| - 1]];
      Added(p, items[|items| - 1], maxCol)
  }

  /** A canonical container is the packing of its own panels: the canonical
      shape of a list of panels is unique. */
  lemma {:induction false} CanonicalIsPacked(rows: Rows, maxCol: nat)
    requires maxCol >= 1 && Canonical(rows, maxCol)
    ensures Pack(Flatten(rows), maxCol) == rows
    decreases |Flatten(rows)|
  {
    if rows != [] {
      var shorter, item := LastPanel(rows, maxCol);
      CanonicalIsPacked(shorter, maxCol);
      var f := Flatten(rows);
      assert f[..|f| - 1] == Flatten(shorter) && f[|f| - 1] == item;
    }
  }

  /** A non-empty canonical container is a canonical one with its last panel
      added. */
  lemma LastPanel(rows: Rows, maxCol: nat) returns (shorter: Rows, item: Panel)
    requires maxCol >= 1 && Canonical(rows, maxCol) && rows != []
    ensures Canonical(shorter, maxCol)
    ensures Flatten(rows) == Flatten(shorter) + [item]
    ensures Added(shorter, item, maxCol) == rows
  {
    var front, last := rows[..|rows| - 1], rows[|rows| - 1];
    assert rows == front + [last];
    assert last != [];
    item := last[|last| - 1];
    var init := last[..|last| - 1];
    assert last == init + [item];
    if init == [] {
      shorter := front;
      DropSingleton(front, item, maxCol);
    } else {
      shorter := front + [init];
      DropFromLast(front, init, item, maxCol);
    }
  }

  /** The last panel sat alone in the last row. */
  lemma DropSingleton(front: Rows, item: Panel, maxCol: nat)
    requires maxCol >= 1 && Canonical(front + [[item]], maxCol)
    ensures Canonical(front, maxCol)
    ensures Flatten(front + [[item]]) == Flatten(front) + [item]
    ensures Added(front, item, maxCol) == front + [[item]]
  {
    var rows := front + [[item]];
    assert forall k :: 0 <= k < |front| ==> rows[k] == front[k];
    FlattenAppend(front, [item]);
    if front != [] {
      assert |front[|front| - 1]| == maxCol;
    }
  }

  /** The last panel shared the last row with the panels `init`. */
  lemma DropFromLast(front: Rows, init: seq<Panel>, item: Panel, maxCol: nat)
    requires maxCol >= 1 && init != [] && Canonical(front + [init + [item]], maxCol)
    ensures Canonical(front + [init], maxCol)
    ensures Flatten(front + [init + [item]]) == Flatten(front + [init]) + [item]
    ensures Added(front + [init], item, maxCol) == front + [init + [item]]
  {
    var rows, shorter := front + [init + [item]], front + [init];
    assert forall k :: 0 <= k < |front| ==> rows[k] == front[k] && shorter[k] == front[k];
    assert rows[|rows| - 1] == init + [item];
    assert |init + [item]| <= maxCol;
    FlattenAppend(front, init + [item]);
    FlattenAppend(front, init);
    assert shorter[..|shorter| - 1] == front && shorter[|shorter| - 1] == init;
  }

  /** Two canonical containers with the same panels in the same order are
      equal. */
  lemma CanonicalUnique(r1: Rows, r2: Rows, maxCol: nat)
    requires maxCol >= 1 && Canonical(r1, maxCol) && Canonical(r2, maxCol)
    requires Flatten(r1) == Flatten(r2)
    ensures r1 == r2
  {
    CanonicalIsPacked(r1, maxCol);
    CanonicalIsPacked(r2, maxCol);
  }

  /** The panels whose uid is not `uid`, in their original order. */
  function Without(items: seq<Panel>, uid: int): (r: seq<Panel>)
    ensures |r| <= |items|
    ensures forall k :: 0 <= k < |r| ==> r[k].uid != uid
  {
    if items == [] then []
    else
      var last := items[|items| - 1];
      var front := Without(items[..|items| - 1], uid);
      if last.uid != uid then front + [last] else front
  }

  /** The filter keeps every panel with another uid and adds none. */
  lemma {:induction false} WithoutMembers(items: seq<Panel>, uid: int)
    ensures forall p :: p in items && p.uid != uid ==> p in Without(items, uid)
    ensures forall p :: p in Without(items, uid) ==> p in items
  {
    if items != [] {
      var front := items[..|items| - 1];
      WithoutMembers(front, uid);
      assert items == front + [items[|items| - 1]];
    }
  }

  lemma {:induction false} WithoutAppend(a: seq<Panel>, b: seq<Panel>, uid: int)
    ensures Without(a + b, uid) == Without(a, uid) + Without(b, uid)
  {
    if b != [] {
      assert (a + b)[..|a + b| - 1] == a + b[..|b| - 1];
      WithoutAppend(a, b[..|b| - 1], uid);
    } else {
      assert a + b == a;
    }
  }

  /** Filtering twice is filtering once. */
  lemma {:induction false} WithoutTwice(items: seq<Panel>, uid: int)
    ensures Without(Without(items, uid), uid) == Without(items, uid)
  {
    if items != [] {
      var front := items[..|items| - 1];
      WithoutTwice(front, uid);
      var last := items[|items| - 1];
      if last.uid != uid {
        WithoutAppend(Without(front, uid), [last], uid);
      }
    }
  }

  /** Panels without the uid pass the filter unchanged. */
  lemma {:induction false} WithoutAbsent(items: seq<Panel>, uid: int)
    requires forall k :: 0 <= k < |items| ==> items[k].uid != uid
    ensures Without(items, uid) == items
  {
    if items != [] {
      WithoutAbsent(items[..|items| - 1], uid);
    }
  }

  /** What `remove_from_container(uid, c)` returns: the other panels, in
      order, packed again from an empty container. */
  function Removed(uid: int, rows: Rows): Rows
  {
    Pack(Without(Flatten(rows), uid), MaxCol)
  }

  /** The result holds exactly the panels of `rows` other than `uid`, in
      their order, in canonical rows; it is empty when none remain. */
  lemma RemovedContents(uid: int, rows: Rows)
    ensures Flatten(Removed(uid, rows)) == Without(Flatten(rows), uid)
    ensures Canonical(Removed(uid, rows), MaxCol)
    ensures Removed(uid, rows) == [] <==> forall p :: p in Flatten(rows) ==> p.uid == uid
  {
    var rest := Without(Flatten(rows), uid);
    WithoutMembers(Flatten(rows), uid);
    if rest != [] {
      assert rest[0] in Flatten(rows);
    }
  }

  /** Removing the same uid twice is removing it once. */
  lemma RemovedIdempotent(uid: int, rows: Rows)
    ensures Removed(uid, Removed(uid, rows)) == Removed(uid, rows)
  {
    WithoutTwice(Flatten(rows), uid);
  }

  /** Removing a uid that no panel has keeps the panels; on a canonical
      container it changes nothing at all. */
  lemma RemovedAbsent(uid: int, rows: Rows)
    requires forall p :: p in Flatten(rows) ==> p.uid != uid
    ensures Flatten(Removed(uid, rows)) == Flatten(rows)
    ensures Canonical(rows, MaxCol) ==> Removed(uid, rows) == rows
  {
    WithoutAbsent(Flatten(rows), uid);
    if Canonical(rows, MaxCol) {
      CanonicalIsPacked(rows, MaxCol);
    }
  }

  // ---------------------------------------------------------------------
  // The container list and the two helpers
  // ---------------------------------------------------------------------

  /** A container's list of rows (the `children` of the panels container). */
  class Container {
    var rows: Rows

    constructor (rows: Rows)
      ensures this.rows == rows
    {
      this.rows := rows;
    }
  }

  /** The container is empty or its last row is full, so adding builds a new
      list. */
  predicate NeedsNewList(rows: Rows, maxCol: nat)
  {
    rows == [] || |rows[|rows| - 1]| == maxCol
  }

  /** `add_to_container(item, container_list, max_col)`. An empty container
      or one whose last row is full gives a new list and leaves the input
      untouched; otherwise the last row grows in place and the same list is
      returned. */
  method AddToContainer(item: Panel, c: Container, maxCol: nat) returns (r: Container)
    modifies c
    ensures r.rows == Added(old(c.rows), item, maxCol)
    ensures NeedsNewList(old(c.rows), maxCol) ==> fresh(r) && c.rows == old(c.rows)
    ensures !NeedsNewList(old(c.rows), maxCol) ==> r == c
  {
    if c.rows == [] {   // add the first row
      r := new Container([[item]]);
      return;
    }
    var row := c.rows[|c.rows| - 1];
    if |row| == maxCol {
      r := new Container(c.rows + [[item]]);
    } else {
      row := row + [item];
      c.rows := c.rows[|c.rows| - 1 := row];
      r := c;
    }
  }

  lemma EmptySlice(prefix: seq<Panel>, row: seq<Panel>)
    ensures prefix + row[..0] == prefix
  {
  }

  /** The panels of the first k + 1 rows are those of the first k followed
      by row k. */
  lemma FlattenPrefix(rows: Rows, k: nat)
    requires k < |rows|
    ensures Flatten(rows[..k + 1]) == Flatten(rows[..k]) + rows[k][..|rows[k]|]
  {
    assert rows[..k + 1] == rows[..k] + [rows[k]];
    FlattenAppend(rows[..k], rows[k]);
    assert rows[k][..|rows[k]|] == rows[k];
  }

  /** Packing one more panel is adding it to the packing. */
  lemma PackAppend(items: seq<Panel>, item: Panel, maxCol: nat)
    ensures Pack(items + [item], maxCol) == Added(Pack(items, maxCol), item, maxCol)
  {
    assert (items + [item])[..|items|] == items;
  }

  /** Visiting column j of a row: the kept panels grow by that column's
      panel exactly when its uid differs, and the packing grows with them. */
  lemma RemoveStep(prefix: seq<Panel>, row: seq<Panel>, j: nat, uid: int)
    requires j < |row|
    ensures var kept := Pack(Without(prefix + row[..j], uid), MaxCol);
      Pack(Without(prefix + row[..j + 1], uid), MaxCol) ==
        if row[j].uid != uid then Added(kept, row[j], MaxCol) else kept
  {
    var before := prefix + row[..j];
    assert prefix + row[..j + 1] == before + [row[j]];
    WithoutAppend(before, [row[j]], uid);
    assert [row[j]][..0] == [];
    if row[j].uid != uid {
      PackAppend(Without(before, uid), row[j], MaxCol);
    } else {
      assert Without(before + [row[j]], uid) == Without(before, uid);
    }
  }

  /** `remove_from_container(uid, container_list)`: every panel except those
      with `uid`, added one by one to a new container. */
  method RemoveFromContainer(uid: int, rows: Rows) returns (result: Rows)
    ensures result == Removed(uid, rows)
  {
    var acc := new Container([]);
    for k := 0 to |rows|
      invariant fresh(acc)
      invariant acc.rows == Pack(Without(Flatten(rows[..k]), uid), MaxCol)
    {
      var row := rows[k];
      ghost var prefix := Flatten(rows[..k]);
      EmptySlice(prefix, row);
      for j := 0 to |row|
        invariant fresh(acc)
        invariant acc.rows == Pack(Without(prefix + row[..j], uid), MaxCol)
      {
        var item := row[j];
        RemoveStep(prefix, row, j, uid);
        if item.uid != uid {
          acc := AddToContainer(item, acc, MaxCol);
        }
      }
      FlattenPrefix(rows, k);
    }
    assert rows[..|rows|] == rows;
    result := acc.rows;
  }

  // ---------------------------------------------------------------------
  // The table
  // ---------------------------------------------------------------------

  /** One table row: an energy level and its population fraction. */
  datatype TableRow = TableRow(energy: real, population: real)

  /** Python's tuple order on (energy, population). */
  predicate RowLeq(a: TableRow, b: TableRow)
  {
    a.energy < b.energy || (a.energy == b.energy && a.population <= b.population)
  }

  predicate Sorted(rows: seq<TableRow>)
  {
    forall i, j :: 0 <= i < j < |rows| ==> RowLeq(rows[i], rows[j])
  }

  /** `zip(E, pop)`: pairs up to the shorter length. */
  function Zip(E: seq<real>, pop: seq<real>): (z: seq<TableRow>)
    ensures |z| == if |E| <= |pop| then |E| else |pop|
    ensures forall i :: 0 <= i < |z| ==> z[i] == TableRow(E[i], pop[i])
  {
    var n := if |E| <= |pop| then |E| else |pop|;
    seq(n, i requires 0 <= i < n => TableRow(E[i], pop[i]))
  }

  /** Insert one row into a sorted list. */
  function Insert(x: TableRow, s: seq<TableRow>): (r: seq<TableRow>)
    requires Sorted(s)
    ensures Sorted(r) && multiset(r) == multiset(s) + multiset{x}
  {
    if s == [] then [x]
    else if RowLeq(x, s[0]) then [x] + s
    else
      var rest := Insert(x, s[1..]);
      InsertBehindHead(x, s, rest);
      [s[0]] + rest
  }

  /** When x goes behind the head, the head followed by the sorted insertion
      into the tail is sorted and holds x and the rows of s. */
  lemma InsertBehindHead(x: TableRow, s: seq<TableRow>, rest: seq<TableRow>)
    requires Sorted(s) && s != [] && !RowLeq(x, s[0])
    requires Sorted(rest) && multiset(rest) == multiset(s[1..]) + multiset{x}
    ensures Sorted([s[0]] + rest) && multiset([s[0]] + rest) == multiset(s) + multiset{x}
  {
    assert s == [s[0]] + s[1..];
    forall k | 0 <= k < |rest|
      ensures RowLeq(s[0], rest[k])
    {
      assert rest[k] in multiset(rest);
      if rest[k] != x {
        assert rest[k] in multiset(s[1..]);
        var j :| 0 <= j < |s[1..]| && s[1..][j] == rest[k];
        assert s[1 + j] == rest[k];
      }
    }
  }

  /** `sorted(...)`: the rows in ascending tuple order. */
  function SortRows(s: seq<TableRow>): (r: seq<TableRow>)
    ensures Sorted(r) && multiset(r) == multiset(s)
  {
    if s == [] then []
    else
      assert s == s[..|s| - 1] + [s[|s| - 1]];
      Insert(s[|s| - 1], SortRows(s[..|s| - 1]))
  }

  /** `update_table(E, pop)`: one row per (energy, population) pair, in
      ascending order of energy. */
  function UpdateTable(E: seq<real>, pop: seq<real>): (table: seq<TableRow>)
    ensures Sorted(table) && multiset(table) == multiset(Zip(E, pop))
    ensures |table| == |Zip(E, pop)|
    ensures forall i, j :: 0 <= i < j < |table| ==> table[i].energy <= table[j].energy
  {
    var t := SortRows(Zip(E, pop));
    assert |t| == |multiset(t)|;
    t
  }

  lemma SortedTail(a: seq<TableRow>)
    requires Sorted(a) && a != []
    ensures Sorted(a[1..])
  {
  }

  /** A sorted list is determined by its multiset of rows. */
  lemma {:induction false} SortedUnique(a: seq<TableRow>, b: seq<TableRow>)
    requires Sorted(a) && Sorted(b) && multiset(a) == multiset(b)
    ensures a == b
  {
    if a != [] {
      assert |a| == |multiset(a)| == |b|;
      SortedHeads(a, b);
      MultisetTail(a);
      MultisetTail(b);
      SortedTail(a);
      SortedTail(b);
      SortedUnique(a[1..], b[1..]);
    }
  }

  /** Two sorted lists with the same rows start with the same row. */
  lemma SortedHeads(a: seq<TableRow>, b: seq<TableRow>)
    requires Sorted(a) && Sorted(b) && multiset(a) == multiset(b) && a != [] && b != []
    ensures a[0] == b[0]
  {
    assert a[0] in multiset(b) && b[0] in multiset(a);
    var i :| 0 <= i < |b| && b[i] == a[0];
    var j :| 0 <= j < |a| && a[j] == b[0];
    assert RowLeq(a[0], a[j]) && RowLeq(b[0], b[i]);
  }

  lemma MultisetTail(a: seq<TableRow>)
    requires a != []
    ensures multiset(a[1..]) == multiset(a) - multiset{a[0]}
  {
    assert a == [a[0]] + a[1..];
  }

  /** Levels already in increasing order of energy come out in their own
      order. */
  lemma UpdateTableKeepsIncreasing(E: seq<real>, pop: seq<real>)
    requires |E| == |pop|
    requires forall i, j :: 0 <= i < j < |E| ==> E[i] < E[j]
    ensures UpdateTable(E, pop) == Zip(E, pop)
  {
    SortedUnique(UpdateTable(E, pop), Zip(E, pop));
  }

  // ---------------------------------------------------------------------
  // Input ranges and the plot/table callback
  // ---------------------------------------------------------------------

  /** A closed range [lo, hi]. */
  datatype Range = Range(lo: real, hi: real)

  const EMaxRange := Range(0.01, 5.0)     // e_max_r
  const NRange := Range(2.0, 25.0)        // n_r
  const TRange := Range(1.0, 10000.0)     // T_r

  predicate InRange(v: real, r: Range)
  {
    r.lo <= v <= r.hi
  }

  /** The inputs the callback accepts: none missing and each inside its
      closed range. */
  predicate Accepted(eMax: Option<real>, n: Option<int>, T: Option<real>)
  {
    && eMax.Some? && n.Some? && T.Some?
    && InRange(eMax.value, EMaxRange)
    && InRange(n.value as real, NRange)
    && InRange(T.value, TRange)
  }

  /** The guard at the top of `update_plot_table`: a `None` input, or any
      value below or above its range, rejects. */
  method AcceptInputs(eMax: Option<real>, n: Option<int>, T: Option<real>) returns (ok: bool)
    ensures ok <==> Accepted(eMax, n, T)
  {
    if eMax.None? || n.None? || T.None? {
      return false;
    }
    var values := [eMax.value, n.value as real, T.value];
    var ranges := [EMaxRange, NRange, TRange];
    for k := 0 to 3
      invariant forall m :: 0 <= m < k ==> InRange(values[m], ranges[m])
    {
      if values[k] < ranges[k].lo || values[k] > ranges[k].hi {
        return false;
      }
    }
    assert InRange(values[0], ranges[0]) && InRange(values[1], ranges[1]) && InRange(values[2], ranges[2]);
    return true;
  }

  /** `np.linspace(0, e_max, n)`: n evenly spaced energies from 0 to e_max. */
  function Linspace(eMax: real, n: nat): (E: seq<real>)
    requires n >= 2
    ensures |E| == n && E[0] == 0.0 && E[n - 1] == eMax
    ensures forall i :: 0 <= i < n ==> E[i] == i as real * (eMax / (n - 1) as real)
    ensures eMax > 0.0 ==> forall i, j :: 0 <= i < j < n ==> E[i] < E[j]
  {
    LevelsIncreasing(eMax, n);
    LastLevel(eMax, n);
    seq(n, i requires 0 <= i < n => Level(eMax, n, i))
  }

  /** The i-th of n evenly spaced values from 0 to eMax; the last one is eMax
      itself. */
  function Level(eMax: real, n: nat, i: nat): real
    requires n >= 2
  {
    if i == n - 1 then eMax else Scaled(i, eMax / (n - 1) as real)
  }

  function Scaled(i: nat, step: real): real
  {
    i as real * step
  }

  /** The special-cased last point lies on the same line: (n - 1) steps of
      eMax / (n - 1) make eMax. */
  lemma LastLevel(eMax: real, n: nat)
    requires n >= 2
    ensures (n - 1) as real * (eMax / (n - 1) as real) == eMax
  {
    var d := (n - 1) as real;
    assert d > 0.0;
    assert d * (eMax / d) == eMax;
  }

  lemma LevelsIncreasing(eMax: real, n: nat)
    requires n >= 2
    ensures eMax > 0.0 ==> forall i, j :: 0 <= i < j < n ==> Level(eMax, n, i) < Level(eMax, n, j)
  {
    if eMax > 0.0 {
      forall i, j | 0 <= i < j < n
        ensures Level(eMax, n, i) < Level(eMax, n, j)
      {
        LevelIncreasing(eMax, n, i, j);
      }
    }
  }

  lemma LevelIncreasing(eMax: real, n: nat, i: nat, j: nat)
    requires n >= 2 && eMax > 0.0 && i < j < n
    ensures Level(eMax, n, i) < Level(eMax, n, j)
  {
    var step := eMax / (n - 1) as real;
    assert step > 0.0;
    calc {
      Scaled(i, step);
    <  { assert (j - i) as real * step > 0.0; }
      Scaled(j, step);
    }
    if j == n - 1 {
      calc {
        Scaled(j, step);
        (n - 1) as real * (eMax / (n - 1) as real);
        eMax;
      }
    }
  }

  /** The table half of `update_plot_table`: empty for rejected inputs,
      otherwise the table of the populations of n levels evenly spread over
      [0, e_max] at temperature T. */
  method UpdatePlotTable(eMax: Option<real>, n: Option<int>, T: Option<real>, exp: real -> real)
    returns (table: seq<TableRow>)
    requires ExpPositive(exp)
    ensures !Accepted(eMax, n, T) ==> table == []
    ensures Accepted(eMax, n, T) ==>
      var E := Linspace(eMax.value, n.value);
      table == Zip(E, Population(E, T.value, exp))
  {
    var ok := AcceptInputs(eMax, n, T);
    if !ok {
      return [];
    }
    var E := Linspace(eMax.value, n.value);
    var pop := Population(E, T.value, exp);
    UpdateTableKeepsIncreasing(E, pop);
    table := UpdateTable(E, pop);
  }
}

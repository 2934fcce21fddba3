// A vector that reports its changes and a table model that follows it, with
// rows of its own in between (src/common/SignalVector.hpp,
// src/common/SignalVectorModel.hpp).

module RowIndexes {
  import opened Sequences

  // A row of the table: an item of the vector or a row of the model's own.
  datatype Row<T> = ItemRow(original: T) | CustomRow(id: nat)

  function Items<T>(rows: seq<Row<T>>): seq<T> {
    if rows == [] then []
    else (if rows[0].ItemRow? then [rows[0].original] else []) + Items(rows[1..])
  }

  function Customs<T>(rows: seq<Row<T>>): seq<nat> {
    if rows == [] then []
    else (if rows[0].CustomRow? then [rows[0].id] else []) + Customs(rows[1..])
  }

  // The number of item rows in front of row m.
  function Rank<T>(rows: seq<Row<T>>, m: nat): nat
    requires m <= |rows|
  {
    if m == 0 then 0 else Rank(rows, m - 1) + if rows[m - 1].ItemRow? then 1 else 0
  }

  // The row of the v-th item; the end if there is none.
  ghost predicate IsRowOf<T>(rows: seq<Row<T>>, v: nat, m: nat) {
    && m <= |rows|
    && (if m == |rows| then Rank(rows, m) <= v else rows[m].ItemRow? && Rank(rows, m) == v)
  }

  lemma {:induction false} RankMonotone<T>(rows: seq<Row<T>>, m: nat, n: nat)
    requires m <= n <= |rows|
    ensures Rank(rows, m) <= Rank(rows, n)
    ensures m < n && rows[m].ItemRow? ==> Rank(rows, m) < Rank(rows, n)
  {
    if m < n {
      RankMonotone(rows, m, n - 1);
    }
  }

  lemma RowIsUnique<T>(rows: seq<Row<T>>, v: nat, m: nat, n: nat)
    requires IsRowOf(rows, v, m) && IsRowOf(rows, v, n)
    ensures m == n
  {
    if m < n {
      RankMonotone(rows, m, n);
    } else if n < m {
      RankMonotone(rows, n, m);
    }
  }

  // The model index of a vector index, as a function.
  ghost function RowOf<T>(rows: seq<Row<T>>, v: nat): (m: nat)
    ensures IsRowOf(rows, v, m)
  {
    RowFrom(rows, v, 0)
  }

  ghost function RowFrom<T>(rows: seq<Row<T>>, v: nat, m: nat): (r: nat)
    requires m <= |rows| && Rank(rows, m) <= v
    ensures IsRowOf(rows, v, r)
    decreases |rows| - m
  {
    if m == |rows| || (rows[m].ItemRow? && Rank(rows, m) == v) then m else RowFrom(rows, v, m + 1)
  }

  lemma {:induction false} ItemsAppend<T>(a: seq<Row<T>>, b: seq<Row<T>>)
    ensures Items(a + b) == Items(a) + Items(b)
  {
    if a == [] {
      assert a + b == b;
    } else {
      var h := if a[0].ItemRow? then [a[0].original] else [];
      calc {
        Items(a + b);
        { assert (a + b)[0] == a[0] && (a + b)[1..] == a[1..] + b; }
        h + Items(a[1..] + b);
        { ItemsAppend(a[1..], b); }
        h + (Items(a[1..]) + Items(b));
        (h + Items(a[1..])) + Items(b);
      }
    }
  }

  lemma {:induction false} CustomsAppend<T>(a: seq<Row<T>>, b: seq<Row<T>>)
    ensures Customs(a + b) == Customs(a) + Customs(b)
  {
    if a == [] {
      assert a + b == b;
    } else {
      var h := if a[0].CustomRow? then [a[0].id] else [];
      calc {
        Customs(a + b);
        { assert (a + b)[0] == a[0] && (a + b)[1..] == a[1..] + b; }
        h + Customs(a[1..] + b);
        { CustomsAppend(a[1..], b); }
        h + (Customs(a[1..]) + Customs(b));
        (h + Customs(a[1..])) + Customs(b);
      }
    }
  }

  // A row between two stretches of rows.
  lemma ItemsAroundRow<T>(a: seq<Row<T>>, row: Row<T>, b: seq<Row<T>>)
    ensures Items(a + [row] + b) == Items(a) + (if row.ItemRow? then [row.original] else []) + Items(b)
  {
    ItemsAppend(a + [row], b);
    ItemsAppend(a, [row]);
    assert Items([row]) == if row.ItemRow? then [row.original] else [];
  }

  lemma CustomsAroundRow<T>(a: seq<Row<T>>, row: Row<T>, b: seq<Row<T>>)
    ensures Customs(a + [row] + b) == Customs(a) + (if row.CustomRow? then [row.id] else []) + Customs(b)
  {
    CustomsAppend(a + [row], b);
    CustomsAppend(a, [row]);
    assert Customs([row]) == if row.CustomRow? then [row.id] else [];
  }

  lemma {:induction false} RankIsCount<T>(rows: seq<Row<T>>, m: nat)
    requires m <= |rows|
    ensures Rank(rows, m) == |Items(rows[..m])|
  {
    if m > 0 {
      RankIsCount(rows, m - 1);
      assert rows[..m] == rows[..m - 1] + [rows[m - 1]];
      ItemsAppend(rows[..m - 1], [rows[m - 1]]);
    }
  }

  // The items in front of and behind a row.
  lemma ItemsAround<T>(rows: seq<Row<T>>, m: nat)
    requires m <= |rows|
    ensures Rank(rows, m) <= |Items(rows)|
    ensures Items(rows[..m]) == Items(rows)[..Rank(rows, m)]
    ensures Items(rows[m..]) == Items(rows)[Rank(rows, m)..]
    ensures m < |rows| && rows[m].ItemRow? ==>
              Rank(rows, m) < |Items(rows)| && Items(rows)[Rank(rows, m)] == rows[m].original
  {
    assert rows == rows[..m] + rows[m..];
    ItemsAppend(rows[..m], rows[m..]);
    RankIsCount(rows, m);
  }

  // Inserting an item's row at the row of its index inserts the item there and
  // leaves the other rows alone.
  lemma InsertedItem<T>(rows: seq<Row<T>>, v: nat, m: nat, item: T)
    requires IsRowOf(rows, v, m) && v <= |Items(rows)|
    ensures Items(Insert(rows, m, ItemRow(item))) == Insert(Items(rows), v, item)
    ensures Customs(Insert(rows, m, ItemRow(item))) == Customs(rows)
  {
    ItemsAround(rows, m);
    RankAtEnd(rows);
    SplitHere(rows, m);
    ItemsAroundRow(rows[..m], ItemRow(item), rows[m..]);
    CustomsAroundRow(rows[..m], ItemRow(item), rows[m..]);
    CustomsAppend(rows[..m], rows[m..]);
    NothingBetween(Customs(rows[..m]), Customs(rows[m..]));
  }

  lemma RankAtEnd<T>(rows: seq<Row<T>>)
    ensures Rank(rows, |rows|) == |Items(rows)|
  {
    RankIsCount(rows, |rows|);
    assert rows[..|rows|] == rows;
  }

  lemma RemovedItem<T>(rows: seq<Row<T>>, v: nat, m: nat)
    requires IsRowOf(rows, v, m) && v < |Items(rows)|
    ensures m < |rows|
    ensures Items(Remove(rows, m)) == Remove(Items(rows), v)
    ensures Customs(Remove(rows, m)) == Customs(rows)
  {
    RankAtEnd(rows);
    RankIsCount(rows, m);
    RowSplit(rows, m);
    RemoveMiddle(Items(rows[..m]), rows[m].original, Items(rows[m + 1..]), v);
  }

  lemma RemoveMiddle<T>(a: seq<T>, x: T, b: seq<T>, k: nat)
    requires k == |a|
    ensures Remove(a + [x] + b, k) == a + b
  {
  }

  lemma RowSplit<T>(rows: seq<Row<T>>, m: nat)
    requires m < |rows|
    ensures var a, b := rows[..m], rows[m + 1..];
            && Items(rows) == Items(a) + (if rows[m].ItemRow? then [rows[m].original] else []) + Items(b)
            && Items(Remove(rows, m)) == Items(a) + Items(b)
    ensures rows[m].ItemRow? ==> Customs(Remove(rows, m)) == Customs(rows)
  {
    var a, b := rows[..m], rows[m + 1..];
    SplitAt(rows, m);
    ItemsAroundRow(a, rows[m], b);
    ItemsAppend(a, b);
    CustomsAroundRow(a, rows[m], b);
    CustomsAppend(a, b);
  }

  lemma RemovedCustom<T>(rows: seq<Row<T>>, m: nat)
    requires m < |rows| && rows[m].CustomRow?
    ensures Items(Remove(rows, m)) == Items(rows)
  {
    RowSplit(rows, m);
  }

  lemma InsertedCustom<T>(rows: seq<Row<T>>, m: nat, id: nat)
    requires m <= |rows|
    ensures Items(Insert(rows, m, CustomRow(id))) == Items(rows)
  {
    SplitHere(rows, m);
    ItemsAppend(rows[..m], rows[m..]);
    ItemsAroundRow(rows[..m], CustomRow(id), rows[m..]);
    NothingBetween(Items(rows[..m]), Items(rows[m..]));
  }
}

module SignalVectors {
  import opened Options
  import opened Sequences
  import opened RowIndexes

  class SignalVectorModel<T> {
    var rows: seq<Row<T>>

    constructor ()
      ensures rows == []
    {
      rows := [];
    }

    // The rows of the items a vector holds already.
    method Initialize(items: seq<T>)
      requires rows == []
      modifies this
      ensures Items(rows) == items && Customs(rows) == []
    {
      for i := 0 to |items|
        invariant Items(rows) == items[..i] && Customs(rows) == []
      {
        OnItemInserted(items[i], i);
        assert Insert(items[..i], i, items[i]) == items[..i + 1];
      }
      assert items[..|items|] == items;
    }

    method GetModelIndexFromVectorIndex(vectorIndex: nat) returns (modelIndex: nat)
      ensures modelIndex == RowOf(rows, vectorIndex)
    {
      modelIndex := 0;
      var v := vectorIndex;
      while modelIndex < |rows|
        invariant modelIndex <= |rows|
        invariant v == vectorIndex + modelIndex - Rank(rows, modelIndex)
        invariant Rank(rows, modelIndex) <= vectorIndex
      {
        if rows[modelIndex].CustomRow? {
          v := v + 1;
        }
        if modelIndex == v {
          RowIsUnique(rows, vectorIndex, modelIndex, RowOf(rows, vectorIndex));
          return;
        }
        modelIndex := modelIndex + 1;
      }
      RowIsUnique(rows, vectorIndex, modelIndex, RowOf(rows, vectorIndex));
    }

    // For a row that is no item's, and for no row, the number of items.
    method GetVectorIndexFromModelIndex(modelIndex: int) returns (i: nat)
      ensures i == if 0 <= modelIndex < |rows| && rows[modelIndex].ItemRow? then Rank(rows, modelIndex)
                   else Rank(rows, |rows|)
    {
      i := 0;
      var index := modelIndex;
      var r := 0;
      while r < |rows|
        invariant 0 <= r <= |rows|
        invariant i == Rank(rows, r)
        invariant index == modelIndex - (r - i)
        invariant !(0 <= modelIndex < r && rows[modelIndex].ItemRow?)
      {
        if rows[r].CustomRow? {
          index := index - 1;
        } else {
          if i == index {
            return;
          }
          i := i + 1;
        }
        r := r + 1;
      }
    }

    method OnItemInserted(item: T, index: nat)
      requires index <= |Items(rows)|
      modifies this
      ensures Items(rows) == Insert(old(Items(rows)), index, item)
      ensures Customs(rows) == old(Customs(rows))
      ensures rows == Insert(old(rows), RowOf(old(rows), index), ItemRow(item))
    {
      var m := GetModelIndexFromVectorIndex(index);
      InsertedItem(rows, index, m, item);
      rows := Insert(rows, m, ItemRow(item));
    }

    method OnItemRemoved(index: nat)
      requires index < |Items(rows)|
      modifies this
      ensures Items(rows) == Remove(old(Items(rows)), index)
      ensures Customs(rows) == old(Customs(rows))
      ensures RowOf(old(rows), index) < |old(rows)| && rows == Remove(old(rows), RowOf(old(rows), index))
    {
      var m := GetModelIndexFromVectorIndex(index);
      RemovedItem(rows, index, m);
      rows := Remove(rows, m);
    }

    // Rows of the model's own go as well.
    method OnItemsCleared()
      modifies this
      ensures rows == []
    {
      rows := [];
    }

    method InsertCustomRow(id: nat, index: nat)
      requires index <= |rows|
      modifies this
      ensures Items(rows) == old(Items(rows))
      ensures rows == Insert(old(rows), index, CustomRow(id))
    {
      InsertedCustom(rows, index, id);
      rows := Insert(rows, index, CustomRow(id));
    }

    method RemoveCustomRow(index: nat)
      requires index < |rows| && rows[index].CustomRow?
      modifies this
      ensures Items(rows) == old(Items(rows))
      ensures rows == Remove(old(rows), index)
    {
      RemovedCustom(rows, index);
      rows := Remove(rows, index);
    }
  }

  // The two translations are inverse on the rows of items.
  lemma TranslationsAreInverse<T>(rows: seq<Row<T>>)
    ensures forall m :: 0 <= m < |rows| && rows[m].ItemRow? ==>
              Rank(rows, m) < |Items(rows)| && RowOf(rows, Rank(rows, m)) == m &&
              Items(rows)[Rank(rows, m)] == rows[m].original
    ensures forall v: nat :: v < |Items(rows)| ==>
              var m := RowOf(rows, v);
              m < |rows| && Rank(rows, m) == v && rows[m] == ItemRow(Items(rows)[v])
  {
    forall m | 0 <= m < |rows| && rows[m].ItemRow?
      ensures Rank(rows, m) < |Items(rows)| && RowOf(rows, Rank(rows, m)) == m
      ensures Items(rows)[Rank(rows, m)] == rows[m].original
    {
      ItemsAround(rows, m);
      RowIsUnique(rows, Rank(rows, m), m, RowOf(rows, Rank(rows, m)));
    }
    forall v: nat | v < |Items(rows)|
      ensures var m := RowOf(rows, v);
              m < |rows| && Rank(rows, m) == v && rows[m] == ItemRow(Items(rows)[v])
    {
      ItemsAround(rows, RowOf(rows, v));
      RankAtEnd(rows);
    }
  }

  ghost predicate IsStrictWeakOrder<T(!new)>(less: (T, T) -> bool) {
    && (forall x :: !less(x, x))
    && (forall x, y, z :: less(x, y) && less(y, z) ==> less(x, z))
    && (forall x, y, z :: !less(x, y) && !less(y, z) ==> !less(x, z))
  }

  ghost predicate SortedBy<T>(items: seq<T>, less: (T, T) -> bool) {
    forall i, j :: 0 <= i < j < |items| ==> !less(items[j], items[i])
  }

  // std::lower_bound by its documented meaning on a sorted range.
  function LowerBound<T>(items: seq<T>, item: T, less: (T, T) -> bool): (k: nat)
    ensures k <= |items|
    ensures forall i :: 0 <= i < k ==> less(items[i], item)
    ensures k < |items| ==> !less(items[k], item)
  {
    if items == [] || !less(items[0], item) then 0 else 1 + LowerBound(items[1..], item, less)
  }

  lemma SortedInsert<T(!new)>(items: seq<T>, item: T, less: (T, T) -> bool)
    requires IsStrictWeakOrder(less) && SortedBy(items, less)
    ensures SortedBy(Insert(items, LowerBound(items, item, less), item), less)
  {
    var k := LowerBound(items, item, less);
    var r := Insert(items, k, item);
    forall i, j | 0 <= i < j < |r| ensures !less(r[j], r[i]) {
      var i', j' := if i < k then i else i - 1, if j < k then j else j - 1;
      assert i != k ==> r[i] == items[i'];
      assert j != k ==> r[j] == items[j'];
      if i == k && j' > k {
        assert !less(items[j'], items[k]) && !less(items[k], item);
      }
    }
  }

  class SignalVector<T(!new)> {
    var items: seq<T>
    var readOnly: seq<T>
    const itemCompare: Option<(T, T) -> bool>
    // The model connected to the signals.
    const model: SignalVectorModel<T>

    // The read-only copy and the model agree with the items.
    ghost predicate Valid()
      reads this, model
    {
      && readOnly == items
      && Items(model.rows) == items
      && (itemCompare.Some? ==> IsStrictWeakOrder(itemCompare.value) && SortedBy(items, itemCompare.value))
    }

    constructor (compare: Option<(T, T) -> bool>)
      requires compare.Some? ==> IsStrictWeakOrder(compare.value)
      ensures Valid() && items == [] && itemCompare == compare && fresh(model)
    {
      items, readOnly := [], [];
      itemCompare := compare;
      model := new SignalVectorModel();
    }

    // index -1 appends; a sorted vector ignores the index.
    method InsertItem(item: T, index: int) returns (at: int)
      requires Valid() && -1 <= index <= |items|
      modifies this, model
      ensures Valid()
      ensures at == match itemCompare
                    case Some(less) => LowerBound(old(items), item, less)
                    case None => if index == -1 then |old(items)| else index
      ensures 0 <= at <= |old(items)| && items == Insert(old(items), at, item)
      ensures Customs(model.rows) == old(Customs(model.rows))
    {
      if itemCompare.Some? {
        at := LowerBound(items, item, itemCompare.value);
        SortedInsert(items, item, itemCompare.value);
      } else if index == -1 {
        at := |items|;
      } else {
        at := index;
      }
      items := Insert(items, at, item);
      model.OnItemInserted(item, at);
      readOnly := items;
    }

    method RemoveAt(index: nat)
      requires Valid() && index < |items|
      modifies this, model
      ensures Valid()
      ensures items == Remove(old(items), index)
      ensures Customs(model.rows) == old(Customs(model.rows))
    {
      RemoveKeepsSorted(items, index);
      items := Remove(items, index);
      model.OnItemRemoved(index);
      readOnly := items;
    }

    method RemoveFirstMatching(matcher: T -> bool) returns (removed: bool)
      requires Valid()
      modifies this, model
      ensures Valid()
      ensures removed <==> exists x :: x in old(items) && matcher(x)
      ensures Customs(model.rows) == old(Customs(model.rows))
      ensures !removed ==> items == old(items) && model.rows == old(model.rows)
      ensures removed ==>
                exists k :: 0 <= k < |old(items)| && matcher(old(items)[k]) && items == Remove(old(items), k) &&
                            (forall j :: 0 <= j < k ==> !matcher(old(items)[j]))
    {
      var index := 0;
      while index < |items|
        invariant index <= |items|
        invariant Valid() && items == old(items) && model.rows == old(model.rows)
        invariant forall j :: 0 <= j < index ==> !matcher(items[j])
      {
        if matcher(items[index]) {
          assert items[index] in old(items);
          RemoveAt(index);
          return true;
        }
        index := index + 1;
      }
      return false;
    }

    method Clear()
      requires Valid()
      modifies this, model
      ensures Valid() && items == [] && model.rows == []
    {
      items := [];
      model.OnItemsCleared();
      readOnly := items;
    }
  }

  lemma RemoveKeepsSorted<T(!new)>(items: seq<T>, k: nat)
    requires k < |items|
    ensures forall less: (T, T) -> bool :: SortedBy(items, less) ==> SortedBy(Remove(items, k), less)
  {
    var r := Remove(items, k);
    assert forall i :: 0 <= i < |r| ==> r[i] == items[if i < k then i else i + 1];
  }
}

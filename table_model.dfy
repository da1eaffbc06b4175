/**
 * The table model behind the include and exclude lists of a name filter panel: a list of elements
 * changed in place, shown as a two-column table.
 */
module FilterTableModel {
  import opened Sequences
  import opened Outcomes

  /** What `getValueAt` hands back, an `Object` in the Java code. */
  datatype TableValue<T> =
    | Text(text: string)           // a string, the marker "invalid"
    | ColumnIndex(column: int)     // a boxed `Integer`: the column index itself
    | Element(element: T)          // an element of the list
    | IndexOutOfBounds             // `ArrayList.get` throws

  /** `ArrayList.removeAll`: every occurrence of every element of `c` goes. */
  function RemoveEvery<T(==)>(xs: seq<T>, c: seq<T>): seq<T>
  {
    Keep(xs, x => x !in c)
  }

  /** `removeAll` leaves no element of `c`, keeps every other element with all its occurrences, and keeps
      the remaining elements in their relative order. */
  lemma RemoveEverySpec<T>(xs: seq<T>, ys: seq<T>, c: seq<T>)
    ensures forall x :: x in RemoveEvery(xs, c) <==> x in xs && x !in c
    ensures forall x :: multiset(RemoveEvery(xs, c))[x] == if x in c then 0 else multiset(xs)[x]
    ensures RemoveEvery(xs + ys, c) == RemoveEvery(xs, c) + RemoveEvery(ys, c)
  {
    KeepMembers(xs, x => x !in c);
    KeepCount(xs, x => x !in c);
    KeepConcat(xs, ys, x => x !in c);
  }

  /** `removeAll` of an empty collection keeps the list as it is. */
  lemma {:induction false} RemoveNothing<T>(xs: seq<T>)
    ensures RemoveEvery(xs, []) == xs
  {
    if xs != [] {
      RemoveNothing(xs[..|xs| - 1]);
      assert xs == xs[..|xs| - 1] + [xs[|xs| - 1]];
    }
  }

  /** `getValueAt` on the list `data`: past the end of the list the string "invalid"; otherwise column 0
      yields the column index itself and any other column the element of that row, where a negative row
      makes `ArrayList.get` throw. */
  function ValueAt<T>(data: seq<T>, rowIndex: int, columnIndex: int): (v: TableValue<T>)
    ensures rowIndex >= |data| ==> v == Text("invalid")
    ensures rowIndex < |data| && columnIndex == 0 ==> v == ColumnIndex(0)
    ensures 0 <= rowIndex < |data| && columnIndex != 0 ==> v == Element(data[rowIndex])
    ensures rowIndex < 0 && columnIndex != 0 ==> v == IndexOutOfBounds
    ensures columnIndex == 0 ==> !v.Element?
  {
    if |data| <= rowIndex then Text("invalid")
    else if columnIndex == 0 then ColumnIndex(columnIndex)
    else if rowIndex < 0 then IndexOutOfBounds
    else Element(data[rowIndex])
  }

  /** The list seen as Java objects: every element boxed as an `Object`. */
  function Boxed<T>(xs: seq<T>): seq<TableValue<T>>
  {
    MapSeq(xs, t => Element(t))
  }

  /** The elements among a list of objects, in order. */
  function ElementsOf<T>(vs: seq<TableValue<T>>): seq<T>
  {
    if vs == [] then []
    else ElementsOf(vs[..|vs| - 1]) + (if vs[|vs| - 1].Element? then [vs[|vs| - 1].element] else [])
  }

  /** `remove(Object)` given a boxed index: no element of the list equals an `Integer`, so nothing goes. */
  lemma {:induction false} BoxedIndexRemovesNothing<T>(xs: seq<T>, index: int)
    ensures ElementsOf(RemoveFirst(Boxed(xs), ColumnIndex(index))) == xs
  {
    assert ColumnIndex(index) !in Boxed(xs);
    RemoveFirstAbsent(Boxed(xs), ColumnIndex(index));
    UnboxBoxed(xs);
  }

  /** Boxing and taking the elements back is the identity. */
  lemma {:induction false} UnboxBoxed<T>(xs: seq<T>)
    ensures ElementsOf(Boxed(xs)) == xs
  {
    if xs != [] {
      var n := |xs| - 1;
      assert Boxed(xs)[..n] == Boxed(xs[..n]);
      UnboxBoxed(xs[..n]);
    }
  }

  /** One more element at the end survives exactly when it is not in `c`. */
  lemma RemoveEverySnoc<T>(xs: seq<T>, x: T, c: seq<T>)
    ensures RemoveEvery(xs + [x], c) == if x in c then RemoveEvery(xs, c) else RemoveEvery(xs, c) + [x]
  {
    assert (xs + [x])[..|xs|] == xs;
  }

  /** The list of one include or exclude table. */
  class MyTableModel<T(==)> {
    var data: seq<T>
    const header: seq<string> := ["type", "name"]

    constructor ()
      ensures data == []
    {
      data := [];
    }

    function GetSize(): (n: nat)
      reads this
      ensures n == |data|
    {
      |data|
    }

    /** `getRowCount` agrees with `getSize`. */
    function GetRowCount(): (n: nat)
      reads this
      ensures n == GetSize()
    {
      |data|
    }

    /** `isEmpty` holds exactly when the size is zero. */
    function IsEmpty(): (b: bool)
      reads this
      ensures b <==> GetSize() == 0
    {
      data == []
    }

    /** `getElementAt`; `ArrayList.get` throws outside the list, which no caller in this model reaches. */
    function GetElementAt(index: nat): (e: T)
      reads this
      requires index < |data|
      ensures e in data
    {
      data[index]
    }

    /** `contains` holds exactly when the element occurs. */
    function Contains(elem: T): (b: bool)
      reads this
      ensures b <==> exists i :: 0 <= i < |data| && data[i] == elem
    {
      elem in data
    }

    /** `remove(Object)`: only the first occurrence goes, and the answer is `true` even when the element
        is absent. */
    method Remove(elem: T) returns (removed: bool)
      modifies this
      ensures data == RemoveFirst(old(data), elem)
      ensures GetSize() == if old(Contains(elem)) then old(GetSize()) - 1 else old(GetSize())
      ensures forall x :: x != elem ==> (Contains(x) <==> x in old(data))
      ensures removed
    {
      RemoveFirstSize(data, elem);
      var i := 0;
      while i < |data| && data[i] != elem
        invariant 0 <= i <= |data|
        invariant elem !in data[..i]
      {
        i := i + 1;
      }
      if i < |data| {
        RemoveFirstAt(data, elem, i);
        data := data[..i] + data[i + 1..];
      } else {
        assert data[..i] == data;
        RemoveFirstAbsent(data, elem);
      }
      removed := true;
    }

    method Clear()
      modifies this
      ensures data == []
      ensures GetSize() == 0 && IsEmpty()
      ensures forall x :: !Contains(x)
    {
      data := [];
    }

    /** `removeAll`: the list keeps, in order, the elements not in `c`; the answer is always `true`. */
    method RemoveAll(c: seq<T>) returns (changed: bool)
      modifies this
      ensures data == RemoveEvery(old(data), c)
      ensures forall x :: Contains(x) <==> x in old(data) && x !in c
      ensures GetSize() <= old(GetSize())
      ensures changed
    {
      var xs := data;
      var kept := [];
      var i := 0;
      while i < |xs|
        invariant 0 <= i <= |xs|
        invariant kept == RemoveEvery(xs[..i], c)
      {
        assert xs[..i + 1] == xs[..i] + [xs[i]];
        RemoveEverySnoc(xs[..i], xs[i], c);
        if xs[i] !in c {
          kept := kept + [xs[i]];
        }
        i := i + 1;
      }
      assert xs[..i] == xs;
      RemoveEverySpec(xs, [], c);
      KeepShorter(xs, x => x !in c);
      data := kept;
      changed := true;
    }

    /** `addRow` appends the element at the end. */
    method AddRow(s: T)
      modifies this
      ensures data == old(data) + [s]
      ensures Contains(s) && GetSize() == old(GetSize()) + 1
      ensures forall x :: x in old(data) ==> Contains(x)
    {
      data := data + [s];
    }

    /** `addAll` appends the collection in order; an empty collection leaves the list as it is. */
    method AddAll(c: seq<T>)
      modifies this
      ensures data == old(data) + c
      ensures GetSize() == old(GetSize()) + |c|
      ensures forall x :: Contains(x) <==> x in old(data) || x in c
      ensures c == [] ==> unchanged(this)
    {
      if c == [] {
        return;
      }
      data := data + c;
    }

    /** The table always has the two columns of its header. */
    function GetColumnCount(): (n: nat)
      ensures n == 2
    {
      |header|
    }

    /** `getColumnName`: the header entry, where a column outside the header makes the array access
        throw. */
    function GetColumnName(column: int): (r: Option<string>)
      ensures r.Some? <==> 0 <= column < GetColumnCount()
      ensures column == 0 ==> r == Some("type")
      ensures column == 1 ==> r == Some("name")
    {
      if 0 <= column < |header| then Some(header[column]) else None
    }

    /** `getValueAt` on this list. */
    function GetValueAt(rowIndex: int, columnIndex: int): (v: TableValue<T>)
      reads this
      ensures v == ValueAt(data, rowIndex, columnIndex)
      ensures columnIndex == 0 ==> !v.Element?
    {
      ValueAt(data, rowIndex, columnIndex)
    }
  }
}

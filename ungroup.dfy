/**
 * The ungroup operation: every selected collection column of a row is expanded into rows, the
 * collections walked in lockstep and the shorter ones padded with missing cells.  The operation also
 * builds the output column layout, splices the new cells into a copy of the row, and records which
 * output keys each input key produced for hiliting.
 *
 * Rows are read from a sequence and pushed onto a sequence; progress, cancellation and the table
 * containers of the engine are not part of this model.
 */
module Ungroup {
  import opened Outcomes

  // ---------------------------------------------------------------------------
  // Data model
  // ---------------------------------------------------------------------------

  /** A column type: a basic type, or a collection type with its element type. */
  datatype DataType = Basic(typeName: string) | CollectionType(element: DataType)

  datatype ColumnSpec = ColumnSpec(name: string, columnType: DataType)

  /** A table cell: missing, a plain value, or a collection of cells. */
  datatype Cell = Missing | Atom(value: string) | Collection(elements: seq<Cell>)

  datatype Row = Row(key: string, cells: seq<Cell>)

  /** The invalid-settings errors of the layout computation. */
  datatype SpecError = InvalidColumnName(name: string) | NotCollectionType(name: string)

  /** `getCollectionElementType`: the element type, absent for a non-collection type. */
  function ElementType(t: DataType): Option<DataType>
  {
    if t.CollectionType? then Some(t.element) else None
  }

  predicate Distinct<T(==)>(s: seq<T>)
  {
    forall i, j :: 0 <= i < j < |s| ==> s[i] != s[j]
  }

  predicate Ascending(s: seq<nat>)
  {
    forall i, j :: 0 <= i < j < |s| ==> s[i] < s[j]
  }

  /** Selected column indices as the row code needs them: no index twice, each within the row. */
  predicate ValidSelection(colIdxs: seq<nat>, width: nat)
  {
    Distinct(colIdxs) && forall i :: 0 <= i < |colIdxs| ==> colIdxs[i] < width
  }

  // ---------------------------------------------------------------------------
  // Counting selected positions
  // ---------------------------------------------------------------------------

  /** How many selected positions lie below `p`: the value of the new-cell cursor when the clone loop
      reaches position `p`. */
  function CountBelow(colIdxs: seq<nat>, p: nat): nat
  {
    if p == 0 then 0 else CountBelow(colIdxs, p - 1) + (if p - 1 in colIdxs then 1 else 0)
  }

  lemma {:induction false} CountBelowMonotone(colIdxs: seq<nat>, p: nat, q: nat)
    requires p <= q
    ensures CountBelow(colIdxs, p) <= CountBelow(colIdxs, q)
    ensures p < q && p in colIdxs ==> CountBelow(colIdxs, p) < CountBelow(colIdxs, q)
  {
    if p < q {
      CountBelowMonotone(colIdxs, p, q - 1);
    }
  }

  lemma {:induction false} CountBelowSnoc(s: seq<nat>, x: nat, p: nat)
    requires x !in s
    ensures CountBelow(s + [x], p) == CountBelow(s, p) + (if x < p then 1 else 0)
  {
    if p > 0 {
      CountBelowSnoc(s, x, p - 1);
      assert (p - 1 in s + [x]) <==> (p - 1 in s || p - 1 == x);
    }
  }

  lemma {:induction false} CountBelowNone(p: nat)
    ensures CountBelow([], p) == 0
  {
    if p > 0 {
      CountBelowNone(p - 1);
    }
  }

  /** With distinct selected positions all below `width`, the cursor ends at the number of selections. */
  lemma {:induction false} CountBelowAll(colIdxs: seq<nat>, width: nat)
    requires ValidSelection(colIdxs, width)
    ensures CountBelow(colIdxs, width) == |colIdxs|
  {
    if colIdxs == [] {
      CountBelowNone(width);
    } else {
      var n := |colIdxs| - 1;
      var s := colIdxs[..n];
      assert colIdxs == s + [colIdxs[n]];
      assert forall k :: k in s ==> k in colIdxs;
      assert colIdxs[n] !in s;
      assert colIdxs[n] in colIdxs;
      CountBelowAll(s, width);
      CountBelowSnoc(s, colIdxs[n], width);
    }
  }

  /** In ascending selections the cursor at the `i`-th selected position is `i`. */
  lemma {:induction false} CountBelowAscending(colIdxs: seq<nat>, i: nat)
    requires Ascending(colIdxs) && i < |colIdxs|
    ensures CountBelow(colIdxs, colIdxs[i]) == i
  {
    var n := |colIdxs| - 1;
    var s := colIdxs[..n];
    var x := colIdxs[n];
    assert colIdxs == s + [x];
    assert x !in s;
    if i < n {
      CountBelowAscending(s, i);
      CountBelowSnoc(s, x, s[i]);
    } else {
      assert ValidSelection(s, x);
      CountBelowAll(s, x);
      CountBelowSnoc(s, x, x);
    }
  }

  lemma NewCellInRange(colIdxs: seq<nat>, p: nat, width: nat)
    requires ValidSelection(colIdxs, width) && p in colIdxs
    ensures CountBelow(colIdxs, p) < |colIdxs|
  {
    CountBelowMonotone(colIdxs, p, width);
    CountBelowAll(colIdxs, width);
  }

  // ---------------------------------------------------------------------------
  // createClone
  // ---------------------------------------------------------------------------

  /** The first `n` positions of a cloned row: an unselected cell is copied; at a selected position the
      original cell is copied only in keep mode, and then the next new cell is taken. */
  function CloneUpTo(cells: seq<Cell>, colIdxs: seq<nat>, keep: bool, newCells: seq<Cell>, n: nat): seq<Cell>
    requires n <= |cells| && ValidSelection(colIdxs, |cells|) && |newCells| == |colIdxs|
  {
    if n == 0 then [] else CloneUpTo(cells, colIdxs, keep, newCells, n - 1) + ClonePiece(cells, colIdxs, keep, newCells, n - 1)
  }

  /** What position `p` contributes to the clone. */
  function ClonePiece(cells: seq<Cell>, colIdxs: seq<nat>, keep: bool, newCells: seq<Cell>, p: nat): seq<Cell>
    requires p < |cells| && ValidSelection(colIdxs, |cells|) && |newCells| == |colIdxs|
  {
    if p in colIdxs then
      NewCellInRange(colIdxs, p, |cells|);
      (if keep then [cells[p]] else []) + [newCells[CountBelow(colIdxs, p)]]
    else [cells[p]]
  }

  function Clone(cells: seq<Cell>, colIdxs: seq<nat>, keep: bool, newCells: seq<Cell>): seq<Cell>
    requires ValidSelection(colIdxs, |cells|) && |newCells| == |colIdxs|
  {
    CloneUpTo(cells, colIdxs, keep, newCells, |cells|)
  }

  /** Where original position `p` lands in the clone. */
  function Offset(colIdxs: seq<nat>, keep: bool, p: nat): nat
  {
    p + if keep then CountBelow(colIdxs, p) else 0
  }

  lemma {:induction false} CloneUpToLength(cells: seq<Cell>, colIdxs: seq<nat>, keep: bool, newCells: seq<Cell>, n: nat)
    requires n <= |cells| && ValidSelection(colIdxs, |cells|) && |newCells| == |colIdxs|
    ensures |CloneUpTo(cells, colIdxs, keep, newCells, n)| == Offset(colIdxs, keep, n)
  {
    if n > 0 {
      CloneUpToLength(cells, colIdxs, keep, newCells, n - 1);
    }
  }

  lemma {:induction false} CloneUpToPrefix(cells: seq<Cell>, colIdxs: seq<nat>, keep: bool, newCells: seq<Cell>, m: nat, n: nat)
    requires m <= n <= |cells| && ValidSelection(colIdxs, |cells|) && |newCells| == |colIdxs|
    ensures CloneUpTo(cells, colIdxs, keep, newCells, m) <= CloneUpTo(cells, colIdxs, keep, newCells, n)
  {
    if m < n {
      CloneUpToPrefix(cells, colIdxs, keep, newCells, m, n - 1);
    }
  }

  /** Original position `p` in the clone: an unselected cell is copied; a selected one is followed by
      (keep mode) or replaced by (remove mode) the new cell at the cursor. */
  lemma CloneAt(cells: seq<Cell>, colIdxs: seq<nat>, keep: bool, newCells: seq<Cell>, p: nat)
    requires ValidSelection(colIdxs, |cells|) && |newCells| == |colIdxs| && p < |cells|
    ensures var r := Clone(cells, colIdxs, keep, newCells);
            var o := Offset(colIdxs, keep, p);
            && (p !in colIdxs ==> o < |r| && r[o] == cells[p])
            && (p in colIdxs ==> CountBelow(colIdxs, p) < |colIdxs|)
            && (p in colIdxs && keep ==> CountBelow(colIdxs, p) < |colIdxs| && o + 1 < |r| && r[o] == cells[p] &&
                                         r[o + 1] == newCells[CountBelow(colIdxs, p)])
            && (p in colIdxs && !keep ==> CountBelow(colIdxs, p) < |colIdxs| && o < |r| &&
                                          r[o] == newCells[CountBelow(colIdxs, p)])
  {
    var r := Clone(cells, colIdxs, keep, newCells);
    var upTo := CloneUpTo(cells, colIdxs, keep, newCells, p + 1);
    var prior := CloneUpTo(cells, colIdxs, keep, newCells, p);
    var piece := ClonePiece(cells, colIdxs, keep, newCells, p);
    assert upTo == prior + piece;
    CloneUpToPrefix(cells, colIdxs, keep, newCells, p + 1, |cells|);
    CloneUpToLength(cells, colIdxs, keep, newCells, p);
    var o := |prior|;
    assert r[o] == upTo[o] == piece[0];
    if |piece| == 2 {
      assert r[o + 1] == upTo[o + 1] == piece[1];
    }
    if p in colIdxs {
      NewCellInRange(colIdxs, p, |cells|);
    }
  }

  /** `createClone` yields `numCells` cells in remove mode and `numCells + |colIdxs|` in keep mode; every
      unselected cell keeps its place relative to the others; a selected position receives the new cells
      in ascending position order, after the original cell in keep mode. */
  lemma CloneLayout(cells: seq<Cell>, colIdxs: seq<nat>, keep: bool, newCells: seq<Cell>)
    requires ValidSelection(colIdxs, |cells|) && |newCells| == |colIdxs|
    ensures |Clone(cells, colIdxs, keep, newCells)| == |cells| + if keep then |colIdxs| else 0
    ensures forall p :: 0 <= p < |cells| ==>
              var r := Clone(cells, colIdxs, keep, newCells);
              var o := Offset(colIdxs, keep, p);
              && (p !in colIdxs ==> o < |r| && r[o] == cells[p])
              && (p in colIdxs ==> CountBelow(colIdxs, p) < |colIdxs|)
              && (p in colIdxs && keep ==> CountBelow(colIdxs, p) < |colIdxs| && o + 1 < |r| && r[o] == cells[p] &&
                                           r[o + 1] == newCells[CountBelow(colIdxs, p)])
              && (p in colIdxs && !keep ==> CountBelow(colIdxs, p) < |colIdxs| && o < |r| &&
                                            r[o] == newCells[CountBelow(colIdxs, p)])
  {
    CloneUpToLength(cells, colIdxs, keep, newCells, |cells|);
    CountBelowAll(colIdxs, |cells|);
    forall p | 0 <= p < |cells| {
      CloneAt(cells, colIdxs, keep, newCells, p);
    }
  }

  /** With ascending column indices the `i`-th new cell lands right where column `colIdxs[i]` was
      (remove mode) or right after it (keep mode). */
  lemma CloneAlignedWhenAscending(cells: seq<Cell>, colIdxs: seq<nat>, keep: bool, newCells: seq<Cell>, i: nat)
    requires ValidSelection(colIdxs, |cells|) && |newCells| == |colIdxs|
    requires Ascending(colIdxs) && i < |colIdxs|
    ensures var r := Clone(cells, colIdxs, keep, newCells);
            var o := Offset(colIdxs, keep, colIdxs[i]) + if keep then 1 else 0;
            o < |r| && r[o] == newCells[i]
  {
    assert colIdxs[i] in colIdxs;
    CloneAt(cells, colIdxs, keep, newCells, colIdxs[i]);
    CountBelowAscending(colIdxs, i);
  }

  /** The new cells follow position order, not the order of `colIdxs`: selecting columns 1 and 0 (in
      that order) puts the cell meant for column 1 into column 0. */
  lemma CloneFollowsPositionOrder()
    ensures Clone([Atom("a"), Atom("b")], [1, 0], false, [Atom("for 1"), Atom("for 0")]) == [Atom("for 1"), Atom("for 0")]
  {
    var cells, colIdxs, newCells := [Atom("a"), Atom("b")], [1, 0], [Atom("for 1"), Atom("for 0")];
    assert 0 in colIdxs && 1 in colIdxs;
    assert CountBelow(colIdxs, 1) == 1;
    assert ClonePiece(cells, colIdxs, false, newCells, 0) == [Atom("for 1")];
    assert ClonePiece(cells, colIdxs, false, newCells, 1) == [Atom("for 0")];
    assert CloneUpTo(cells, colIdxs, false, newCells, 1) == [Atom("for 1")];
  }

  /** Writes `v` at the end of the filled prefix `a[..n]`. */
  method Store(a: array<Cell>, n: nat, v: Cell)
    requires n < a.Length
    modifies a
    ensures a[..n + 1] == old(a[..n]) + [v]
  {
    a[n] := v;
    assert a[..n + 1] == a[..n] + [v];
  }

  /** One pass of the clone loop at position `i`: copies the original cell unless it is selected in remove
      mode, and at a selected position takes the next new cell. */
  method CloneStep(cells: array<Cell>, cellIdx: nat, newCellIdx: nat, original: seq<Cell>, i: nat, isSelected: bool,
                   colIdxs: seq<nat>, keep: bool, newCells: seq<Cell>)
    returns (cellIdx': nat, newCellIdx': nat)
    requires i < |original| && ValidSelection(colIdxs, |original|) && |newCells| == |colIdxs|
    requires isSelected <==> i in colIdxs
    requires newCellIdx == CountBelow(colIdxs, i)
    requires cellIdx + |ClonePiece(original, colIdxs, keep, newCells, i)| <= cells.Length
    modifies cells
    ensures newCellIdx' == CountBelow(colIdxs, i + 1)
    ensures cellIdx' == cellIdx + |ClonePiece(original, colIdxs, keep, newCells, i)|
    ensures cells[..cellIdx'] == old(cells[..cellIdx]) + ClonePiece(original, colIdxs, keep, newCells, i)
  {
    cellIdx', newCellIdx' := cellIdx, newCellIdx;
    if isSelected {
      if keep {
        Store(cells, cellIdx', original[i]);
        cellIdx' := cellIdx' + 1;
      }
      NewCellInRange(colIdxs, i, |original|);
      Store(cells, cellIdx', newCells[newCellIdx']);
      cellIdx' := cellIdx' + 1;
      newCellIdx' := newCellIdx' + 1;
    } else {
      Store(cells, cellIdx', original[i]);
      cellIdx' := cellIdx' + 1;
    }
  }

  /** The selected positions, mapped to their new cells. */
  method SelectionMap(colIdxs: seq<nat>, newCells: seq<Cell>) returns (selected: map<nat, Cell>)
    requires |newCells| == |colIdxs|
    ensures forall p :: p in selected <==> p in colIdxs
  {
    selected := map[];
    for i := 0 to |newCells|
      invariant forall p :: p in selected <==> p in colIdxs[..i]
    {
      assert colIdxs[..i + 1] == colIdxs[..i] + [colIdxs[i]];
      selected := selected[colIdxs[i] := newCells[i]];
    }
    assert colIdxs[..|newCells|] == colIdxs;
  }

  /** The cell array of `createClone`, filled with two cursors, one into the output and one into the new
      cells. */
  method FillClone(original: seq<Cell>, colIdxs: seq<nat>, keep: bool, newCells: seq<Cell>, selected: map<nat, Cell>)
    returns (r: seq<Cell>)
    requires ValidSelection(colIdxs, |original|) && |newCells| == |colIdxs|
    requires forall p :: p in selected <==> p in colIdxs
    ensures r == Clone(original, colIdxs, keep, newCells)
  {
    var cellCount := if keep then |original| + |colIdxs| else |original|;
    CloneUpToLength(original, colIdxs, keep, newCells, |original|);
    CountBelowAll(colIdxs, |original|);
    var cells := new Cell[cellCount](_ => Missing);
    var cellIdx := 0;
    var newCellIdx := 0;
    for i := 0 to |original|
      invariant newCellIdx == CountBelow(colIdxs, i)
      invariant cellIdx == Offset(colIdxs, keep, i) <= cellCount
      invariant cells[..cellIdx] == CloneUpTo(original, colIdxs, keep, newCells, i)
    {
      CloneUpToLength(original, colIdxs, keep, newCells, i + 1);
      CountBelowMonotone(colIdxs, i + 1, |original|);
      cellIdx, newCellIdx := CloneStep(cells, cellIdx, newCellIdx, original, i, i in selected, colIdxs, keep, newCells);
    }
    assert cells[..] == cells[..cellIdx];
    r := cells[..];
  }

  /** `createClone`: the row under the new key, with the new cells placed at the selected positions. */
  method CreateClone(newKey: string, row: Row, colIdxs: seq<nat>, removeCollectionCol: bool, newCells: seq<Cell>)
    returns (r: Row)
    requires ValidSelection(colIdxs, |row.cells|) && |newCells| == |colIdxs|
    ensures r == Row(newKey, Clone(row.cells, colIdxs, !removeCollectionCol, newCells))
  {
    var selected := SelectionMap(colIdxs, newCells);
    var cells := FillClone(row.cells, colIdxs, !removeCollectionCol, newCells, selected);
    r := Row(newKey, cells);
  }


  // ---------------------------------------------------------------------------
  // createTableSpecInternal
  // ---------------------------------------------------------------------------

  /** `findColumnIndex`: the first column with the name, or -1. */
  function FindColumnIndex(spec: seq<ColumnSpec>, name: string): (r: int)
    ensures -1 <= r < |spec|
    ensures r >= 0 ==> spec[r].name == name
    ensures r < 0 <==> forall k :: 0 <= k < |spec| ==> spec[k].name != name
  {
    if |spec| == 0 then -1
    else if spec[|spec| - 1].name == name && FindColumnIndex(spec[..|spec| - 1], name) < 0 then |spec| - 1
    else FindColumnIndex(spec[..|spec| - 1], name)
  }

  /** The check applied to one selected name: it must name a column, and that column a collection. */
  function CheckSelected(spec: seq<ColumnSpec>, name: string): (r: Result<DataType, SpecError>)
    ensures r.Ok? <==> FindColumnIndex(spec, name) >= 0 && spec[FindColumnIndex(spec, name)].columnType.CollectionType?
    ensures r.Ok? ==> r.value == spec[FindColumnIndex(spec, name)].columnType.element
    ensures FindColumnIndex(spec, name) < 0 ==> r == Err(InvalidColumnName(name))
    ensures FindColumnIndex(spec, name) >= 0 && r.Err? ==> r == Err(NotCollectionType(name))
  {
    var index := FindColumnIndex(spec, name);
    if index < 0 then Err(InvalidColumnName(name))
    else match ElementType(spec[index].columnType)
      case None => Err(NotCollectionType(name))
      case Some(basicType) => Ok(basicType)
  }

  /** The selected columns' element types, keyed by name, or the first invalid-settings error. */
  function CollectionTypes(spec: seq<ColumnSpec>, colNames: seq<string>): Result<map<string, DataType>, SpecError>
  {
    if |colNames| == 0 then Ok(map[])
    else
      var name := colNames[|colNames| - 1];
      match CollectionTypes(spec, colNames[..|colNames| - 1])
      case Err(e) => Err(e)
      case Ok(m) =>
        match CheckSelected(spec, name)
        case Err(e) => Err(e)
        case Ok(basicType) => Ok(m[name := basicType])
  }

  lemma {:induction false} CollectionTypesErrorPersists(spec: seq<ColumnSpec>, colNames: seq<string>, j: nat)
    requires j <= |colNames| && CollectionTypes(spec, colNames[..j]).Err?
    ensures CollectionTypes(spec, colNames) == CollectionTypes(spec, colNames[..j])
  {
    if j < |colNames| {
      var n := |colNames| - 1;
      assert colNames[..n][..j] == colNames[..j];
      CollectionTypesErrorPersists(spec, colNames[..n], j);
      assert colNames[..n] == colNames[..n];
    } else {
      assert colNames[..j] == colNames;
    }
  }

  /** The layout check succeeds exactly when every selected name is a collection column; otherwise it
      reports the first name that fails, with the reason it fails. */
  lemma {:induction false} CollectionTypesOutcome(spec: seq<ColumnSpec>, colNames: seq<string>)
    ensures CollectionTypes(spec, colNames).Ok? <==> forall j :: 0 <= j < |colNames| ==> CheckSelected(spec, colNames[j]).Ok?
    ensures CollectionTypes(spec, colNames).Err? ==>
              exists j :: && 0 <= j < |colNames|
                          && CheckSelected(spec, colNames[j]).Err?
                          && CollectionTypes(spec, colNames).error == CheckSelected(spec, colNames[j]).error
                          && forall k :: 0 <= k < j ==> CheckSelected(spec, colNames[k]).Ok?
    ensures CollectionTypes(spec, colNames).Ok? ==>
              var m := CollectionTypes(spec, colNames).value;
              forall name :: (name in m <==> name in colNames) &&
                             (name in m ==> CheckSelected(spec, name) == Ok(m[name]))
  {
    if |colNames| > 0 {
      var n := |colNames| - 1;
      var prefix := colNames[..n];
      CollectionTypesOutcome(spec, prefix);
      assert forall k :: 0 <= k < n ==> prefix[k] == colNames[k];
      assert forall name :: name in colNames <==> name in prefix || name == colNames[n];
    }
  }

  /** The output columns contributed by one input column: a selected column is replaced by a same-name
      column of its element type (remove mode), or kept and followed by an element-typed column with a
      name unique in the input spec (keep mode); any other column is copied. */
  function LayoutPiece(spec: seq<ColumnSpec>, types: map<string, DataType>, keep: bool,
                       uniqueName: (seq<ColumnSpec>, string) -> string, column: ColumnSpec): seq<ColumnSpec>
  {
    if column.name in types then
      if keep then [column, ColumnSpec(uniqueName(spec, column.name), types[column.name])]
      else [ColumnSpec(column.name, types[column.name])]
    else [column]
  }

  function LayoutUpTo(spec: seq<ColumnSpec>, types: map<string, DataType>, keep: bool,
                      uniqueName: (seq<ColumnSpec>, string) -> string, n: nat): seq<ColumnSpec>
    requires n <= |spec|
  {
    if n == 0 then []
    else LayoutUpTo(spec, types, keep, uniqueName, n - 1) + LayoutPiece(spec, types, keep, uniqueName, spec[n - 1])
  }

  /** The output spec, or the invalid-settings error; no selected names leaves the spec as it is. */
  function TableSpec(spec: seq<ColumnSpec>, removeCollectionCol: bool, colNames: Option<seq<string>>,
                     uniqueName: (seq<ColumnSpec>, string) -> string): Result<seq<ColumnSpec>, SpecError>
  {
    if colNames.None? || |colNames.value| == 0 then Ok(spec)
    else match CollectionTypes(spec, colNames.value)
      case Err(e) => Err(e)
      case Ok(types) => Ok(LayoutUpTo(spec, types, !removeCollectionCol, uniqueName, |spec|))
  }

  /** How many of the first `p` input columns are selected. */
  function SelectedBefore(spec: seq<ColumnSpec>, types: map<string, DataType>, p: nat): nat
    requires p <= |spec|
  {
    if p == 0 then 0 else SelectedBefore(spec, types, p - 1) + if spec[p - 1].name in types then 1 else 0
  }

  lemma {:induction false} LayoutUpToShape(spec: seq<ColumnSpec>, types: map<string, DataType>, keep: bool,
                                           uniqueName: (seq<ColumnSpec>, string) -> string, m: nat, n: nat)
    requires m <= n <= |spec|
    ensures |LayoutUpTo(spec, types, keep, uniqueName, n)| == n + if keep then SelectedBefore(spec, types, n) else 0
    ensures LayoutUpTo(spec, types, keep, uniqueName, m) <= LayoutUpTo(spec, types, keep, uniqueName, n)
  {
    if n > 0 {
      if m < n {
        LayoutUpToShape(spec, types, keep, uniqueName, m, n - 1);
      } else {
        LayoutUpToShape(spec, types, keep, uniqueName, m - 1, n - 1);
      }
    }
  }

  /** Where input column `p` lands in the output spec. */
  function LayoutOffset(spec: seq<ColumnSpec>, types: map<string, DataType>, keep: bool, p: nat): nat
    requires p <= |spec|
  {
    p + if keep then SelectedBefore(spec, types, p) else 0
  }

  /** Input column `p` in the output spec `r`: with `o` the number of output columns before it, a selected
      column is replaced in place (remove mode) or followed by its element column (keep mode); any other
      column is copied. */
  predicate ColumnPlaced(spec: seq<ColumnSpec>, types: map<string, DataType>, removeCollectionCol: bool,
                         uniqueName: (seq<ColumnSpec>, string) -> string, r: seq<ColumnSpec>, p: nat)
    requires p < |spec|
  {
    var keep := !removeCollectionCol;
    var o := LayoutOffset(spec, types, keep, p);
    && (spec[p].name !in types ==> o < |r| && r[o] == spec[p])
    && (spec[p].name in types && !keep ==>
          o < |r| && r[o] == ColumnSpec(spec[p].name, types[spec[p].name]))
    && (spec[p].name in types && keep ==>
          o + 1 < |r| && r[o] == spec[p] &&
          r[o + 1] == ColumnSpec(uniqueName(spec, spec[p].name), types[spec[p].name]))
  }

  lemma LayoutAt(spec: seq<ColumnSpec>, types: map<string, DataType>, keep: bool,
                 uniqueName: (seq<ColumnSpec>, string) -> string, p: nat)
    requires p < |spec|
    ensures ColumnPlaced(spec, types, !keep, uniqueName, LayoutUpTo(spec, types, keep, uniqueName, |spec|), p)
  {
    var r := LayoutUpTo(spec, types, keep, uniqueName, |spec|);
    var prior := LayoutUpTo(spec, types, keep, uniqueName, p);
    var piece := LayoutPiece(spec, types, keep, uniqueName, spec[p]);
    var upTo := LayoutUpTo(spec, types, keep, uniqueName, p + 1);
    assert upTo == prior + piece;
    LayoutUpToShape(spec, types, keep, uniqueName, p + 1, |spec|);
    LayoutUpToShape(spec, types, keep, uniqueName, p, p);
    var o := |prior|;
    assert r[o] == upTo[o] == piece[0];
    if |piece| == 2 {
      assert r[o + 1] == upTo[o + 1] == piece[1];
    }
  }

  /** The output spec keeps the input's column order: every input column is placed as `ColumnPlaced`
      says, and keep mode adds one column per selected column. */
  lemma TableSpecLayout(spec: seq<ColumnSpec>, removeCollectionCol: bool, colNames: seq<string>,
                        uniqueName: (seq<ColumnSpec>, string) -> string)
    requires |colNames| > 0 && CollectionTypes(spec, colNames).Ok?
    ensures |TableSpec(spec, removeCollectionCol, Some(colNames), uniqueName).value| ==
              |spec| + (if !removeCollectionCol then SelectedBefore(spec, CollectionTypes(spec, colNames).value, |spec|) else 0)
    ensures forall p: nat | p < |spec| ::
              ColumnPlaced(spec, CollectionTypes(spec, colNames).value, removeCollectionCol, uniqueName,
                           TableSpec(spec, removeCollectionCol, Some(colNames), uniqueName).value, p)
  {
    var types := CollectionTypes(spec, colNames).value;
    var keep := !removeCollectionCol;
    var r := LayoutUpTo(spec, types, keep, uniqueName, |spec|);
    assert TableSpec(spec, removeCollectionCol, Some(colNames), uniqueName) == Ok(r);
    LayoutUpToShape(spec, types, keep, uniqueName, |spec|, |spec|);
    forall p | 0 <= p < |spec|
      ensures ColumnPlaced(spec, types, removeCollectionCol, uniqueName, r, p)
    {
      LayoutAt(spec, types, keep, uniqueName, p);
    }
  }


  /** `createTableSpecInternal`: first validates every selected name into an element-type table, then
      builds the output column list in input order. */
  method CreateTableSpecInternal(spec: seq<ColumnSpec>, removeCollectionCol: bool, colNames: Option<seq<string>>,
                                 uniqueName: (seq<ColumnSpec>, string) -> string)
    returns (r: Result<seq<ColumnSpec>, SpecError>)
    ensures r == TableSpec(spec, removeCollectionCol, colNames, uniqueName)
    ensures colNames.None? || colNames.value == [] ==> r == Ok(spec)
    ensures colNames.Some? && colNames.value != [] ==>
              (r.Ok? <==> forall j :: 0 <= j < |colNames.value| ==> CheckSelected(spec, colNames.value[j]).Ok?)
  {
    if colNames.None? || |colNames.value| <= 0 {
      return Ok(spec);
    }
    var names := colNames.value;
    CollectionTypesOutcome(spec, names);
    var collectionColsMap: map<string, DataType> := map[];
    for j := 0 to |names|
      invariant CollectionTypes(spec, names[..j]) == Ok(collectionColsMap)
    {
      assert names[..j + 1][..j] == names[..j];
      var index := FindColumnIndex(spec, names[j]);
      if index < 0 {
        CollectionTypesErrorPersists(spec, names, j + 1);
        return Err(InvalidColumnName(names[j]));
      }
      var basicType := ElementType(spec[index].columnType);
      if basicType.None? {
        CollectionTypesErrorPersists(spec, names, j + 1);
        return Err(NotCollectionType(names[j]));
      }
      collectionColsMap := collectionColsMap[names[j] := basicType.value];
    }
    assert names[..|names|] == names;
    var keep := !removeCollectionCol;
    var specs: seq<ColumnSpec> := [];
    for p := 0 to |spec|
      invariant specs == LayoutUpTo(spec, collectionColsMap, keep, uniqueName, p)
    {
      var origColSpec := spec[p];
      var origColName := origColSpec.name;
      if origColName in collectionColsMap {
        var resultType := collectionColsMap[origColName];
        var newName;
        if !removeCollectionCol {
          specs := specs + [origColSpec];
          newName := uniqueName(spec, origColName);
        } else {
          newName := origColName;
        }
        specs := specs + [ColumnSpec(newName, resultType)];
      } else {
        specs := specs + [origColSpec];
      }
    }
    return Ok(specs);
  }

  // ---------------------------------------------------------------------------
  // Row expansion
  // ---------------------------------------------------------------------------

  /** Decimal digits of a counter, as `Long.toString` writes them. */
  function DecimalString(n: nat): string
  {
    if n < 10 then ["0123456789"[n]] else DecimalString(n / 10) + ["0123456789"[n % 10]]
  }

  lemma {:induction false} DecimalStringInjective(a: nat, b: nat)
    requires DecimalString(a) == DecimalString(b)
    ensures a == b
  {
    if a >= 10 && b >= 10 {
      var da, db := DecimalString(a / 10), DecimalString(b / 10);
      assert da == DecimalString(a)[..|da|];
      assert db == DecimalString(b)[..|db|];
      DecimalStringInjective(a / 10, b / 10);
    } else if a >= 10 || b >= 10 {
      var big := if a >= 10 then a else b;
      DecimalStringNotEmpty(big / 10);
    }
  }

  lemma {:induction false} DecimalStringNotEmpty(n: nat)
    ensures |DecimalString(n)| >= 1
  {
    if n >= 10 {
      DecimalStringNotEmpty(n / 10);
    }
  }

  /** The key of the `counter`-th row produced from a row. */
  function SuffixedKey(key: string, counter: nat): string
  {
    key + "_" + DecimalString(counter)
  }

  /** Keys produced from one row differ from each other. */
  lemma SuffixedKeysDistinct(key: string, a: nat, b: nat)
    requires a != b
    ensures SuffixedKey(key, a) != SuffixedKey(key, b)
  {
    if SuffixedKey(key, a) == SuffixedKey(key, b) {
      var n := |key| + 1;
      assert DecimalString(a) == SuffixedKey(key, a)[n..];
      assert DecimalString(b) == SuffixedKey(key, b)[n..];
      DecimalStringInjective(a, b);
    }
  }

  /** The collection behind each selected cell, or `None` where the Java iterator is null (the cell is
      not a collection).  The Java iterators all advance together, so one step counter stands for their
      positions. */
  function Iterators(row: Row, colIndices: seq<nat>): (its: seq<Option<seq<Cell>>>)
    requires ValidSelection(colIndices, |row.cells|)
    ensures |its| == |colIndices|
    ensures forall i :: 0 <= i < |colIndices| ==>
              its[i] == if row.cells[colIndices[i]].Collection? then Some(row.cells[colIndices[i]].elements) else None
  {
    seq(|colIndices|, i requires 0 <= i < |colIndices| =>
      var c := row.cells[colIndices[i]];
      if c.Collection? then Some(c.elements) else None)
  }

  /** No selected cell is a collection. */
  predicate NoCollections(its: seq<Option<seq<Cell>>>)
  {
    forall i :: 0 <= i < |its| ==> its[i].None?
  }

  /** Every selected cell is an empty collection. */
  predicate AllEmpty(its: seq<Option<seq<Cell>>>)
  {
    forall i :: 0 <= i < |its| ==> its[i].Some? && |its[i].value| == 0
  }

  /** Some collection still has an element at step `t`. */
  predicate HasNext(its: seq<Option<seq<Cell>>>, t: nat)
  {
    exists i :: 0 <= i < |its| && its[i].Some? && t < |its[i].value|
  }

  /** The new cells of step `t`: the `t`-th element of every collection that has one, missing otherwise. */
  function StepCells(its: seq<Option<seq<Cell>>>, t: nat): (cells: seq<Cell>)
    ensures |cells| == |its|
  {
    seq(|its|, i requires 0 <= i < |its| => if its[i].Some? && t < |its[i].value| then its[i].value[t] else Missing)
  }

  predicate AllMissing(cells: seq<Cell>)
  {
    forall i :: 0 <= i < |cells| ==> cells[i].Missing?
  }

  /** The length of the longest collection. */
  function MaxLength(its: seq<Option<seq<Cell>>>): nat
  {
    if its == [] then 0
    else
      var rest := MaxLength(its[..|its| - 1]);
      var last := its[|its| - 1];
      if last.Some? && |last.value| > rest then |last.value| else rest
  }

  /** A step has a next element exactly while it is below the longest collection's length. */
  lemma {:induction false} HasNextBelowMaxLength(its: seq<Option<seq<Cell>>>, t: nat)
    ensures HasNext(its, t) <==> t < MaxLength(its)
  {
    if its != [] {
      var prefix := its[..|its| - 1];
      HasNextBelowMaxLength(prefix, t);
      if HasNext(prefix, t) {
        var i :| 0 <= i < |prefix| && prefix[i].Some? && t < |prefix[i].value|;
        assert its[i] == prefix[i];
      }
      if HasNext(its, t) {
        var i :| 0 <= i < |its| && its[i].Some? && t < |its[i].value|;
        if i < |prefix| {
          assert prefix[i] == its[i];
        }
      }
    }
  }

  lemma {:induction false} AllEmptyHasNoSteps(its: seq<Option<seq<Cell>>>)
    requires AllEmpty(its)
    ensures MaxLength(its) == 0
  {
    HasNextBelowMaxLength(its, 0);
  }

  /** Whether step `t` pushes a row: every step with a next element unless skip-missing drops an
      all-missing one; when every collection is empty, the single first step pushes an all-missing row
      even with skip-missing on. */
  predicate Emitted(its: seq<Option<seq<Cell>>>, skipMissingValues: bool, t: nat)
  {
    if AllEmpty(its) then t == 0
    else HasNext(its, t) && !(skipMissingValues && AllMissing(StepCells(its, t)))
  }

  /** The new cells of the rows pushed during the first `n` steps, in order. */
  function EmittedSteps(its: seq<Option<seq<Cell>>>, skipMissingValues: bool, n: nat): (steps: seq<seq<Cell>>)
    ensures StepsFit(steps, |its|)
  {
    if n == 0 then []
    else EmittedSteps(its, skipMissingValues, n - 1) +
           if Emitted(its, skipMissingValues, n - 1) then [StepCells(its, n - 1)] else []
  }

  /** How many steps the do-while loop runs before it stops. */
  function StepCount(its: seq<Option<seq<Cell>>>): nat
  {
    if AllEmpty(its) then 1 else MaxLength(its)
  }

  /** Every step carries one new cell per selected column. */
  predicate StepsFit(steps: seq<seq<Cell>>, width: nat)
  {
    forall k :: 0 <= k < |steps| ==> |steps[k]| == width
  }

  /** The rows built from the pushed steps, keyed `<key>_1, <key>_2, ...`. */
  function StepRows(row: Row, colIndices: seq<nat>, keep: bool, steps: seq<seq<Cell>>): (rows: seq<Row>)
    requires ValidSelection(colIndices, |row.cells|)
    requires StepsFit(steps, |colIndices|)
    ensures |rows| == |steps|
  {
    if steps == [] then []
    else
      var n := |steps| - 1;
      StepRows(row, colIndices, keep, steps[..n]) + [Row(SuffixedKey(row.key, n + 1), Clone(row.cells, colIndices, keep, steps[n]))]
  }


  function Missings(n: nat): (cells: seq<Cell>)
    ensures |cells| == n && AllMissing(cells)
  {
    seq(n, _ => Missing)
  }

  /** The rows one input row expands into. */
  function UngroupRow(row: Row, colIndices: seq<nat>, skipMissingValues: bool, removeCollectionCol: bool): seq<Row>
    requires ValidSelection(colIndices, |row.cells|)
  {
    var its := Iterators(row, colIndices);
    if NoCollections(its) then
      if skipMissingValues then []
      else [Row(row.key, Clone(row.cells, colIndices, !removeCollectionCol, Missings(|colIndices|)))]
    else StepRows(row, colIndices, !removeCollectionCol, EmittedSteps(its, skipMissingValues, StepCount(its)))
  }

  /** The ungrouped table: the expansions of the input rows, in input order. */
  function UngroupRows(input: seq<Row>, colIndices: seq<nat>, skipMissingValues: bool, removeCollectionCol: bool): seq<Row>
    requires forall row :: row in input ==> ValidSelection(colIndices, |row.cells|)
  {
    if input == [] then []
    else
      var last := input[|input| - 1];
      UngroupRows(input[..|input| - 1], colIndices, skipMissingValues, removeCollectionCol) +
        UngroupRow(last, colIndices, skipMissingValues, removeCollectionCol)
  }

  function KeysOf(rows: seq<Row>): set<string>
  {
    set r | r in rows :: r.key
  }

  /** The hilite mapping: each input key that produced rows maps to the keys it produced. */
  function HiliteMap(input: seq<Row>, colIndices: seq<nat>, skipMissingValues: bool, removeCollectionCol: bool)
    : map<string, set<string>>
    requires forall row :: row in input ==> ValidSelection(colIndices, |row.cells|)
  {
    if input == [] then map[]
    else
      var last := input[|input| - 1];
      var m := HiliteMap(input[..|input| - 1], colIndices, skipMissingValues, removeCollectionCol);
      var produced := UngroupRow(last, colIndices, skipMissingValues, removeCollectionCol);
      if produced == [] then m else m[last.key := KeysOf(produced)]
  }

  // ---------------------------------------------------------------------------
  // Properties of the expansion
  // ---------------------------------------------------------------------------

  lemma {:induction false} EmittedStepsPrefix(its: seq<Option<seq<Cell>>>, skipMissingValues: bool, n: nat)
    requires n > 0
    ensures var prior := EmittedSteps(its, skipMissingValues, n - 1);
            var steps := EmittedSteps(its, skipMissingValues, n);
            && |prior| <= |steps| <= |prior| + 1
            && (forall j :: 0 <= j < |prior| ==> steps[j] == prior[j])
            && (|steps| == |prior| + 1 <==> Emitted(its, skipMissingValues, n - 1))
            && (Emitted(its, skipMissingValues, n - 1) ==> steps[|prior|] == StepCells(its, n - 1))
  {
  }

  /** Every pushed step is one that qualifies: the `j`-th pushed step is the step `t` that pushed it. */
  lemma {:induction false} EmittedStepAt(its: seq<Option<seq<Cell>>>, skipMissingValues: bool, n: nat, j: nat)
    returns (t: nat)
    requires j < |EmittedSteps(its, skipMissingValues, n)|
    ensures t < n && Emitted(its, skipMissingValues, t) && EmittedSteps(its, skipMissingValues, n)[j] == StepCells(its, t)
  {
    EmittedStepsPrefix(its, skipMissingValues, n);
    if j < |EmittedSteps(its, skipMissingValues, n - 1)| {
      t := EmittedStepAt(its, skipMissingValues, n - 1, j);
    } else {
      t := n - 1;
    }
  }

  /** At most one step is pushed per step taken. */
  lemma {:induction false} EmittedStepsBound(its: seq<Option<seq<Cell>>>, skipMissingValues: bool, n: nat)
    ensures |EmittedSteps(its, skipMissingValues, n)| <= n
  {
    if n > 0 {
      EmittedStepsBound(its, skipMissingValues, n - 1);
    }
  }

  /** Every step that qualifies is pushed. */
  lemma {:induction false} EmittedStepsComplete(its: seq<Option<seq<Cell>>>, skipMissingValues: bool, n: nat)
    ensures forall t :: 0 <= t < n && Emitted(its, skipMissingValues, t) ==>
              StepCells(its, t) in EmittedSteps(its, skipMissingValues, n)
  {
    if n > 0 {
      EmittedStepsComplete(its, skipMissingValues, n - 1);
      EmittedStepsPrefix(its, skipMissingValues, n);
      var prior := EmittedSteps(its, skipMissingValues, n - 1);
      var steps := EmittedSteps(its, skipMissingValues, n);
      assert forall c :: c in prior ==> c in steps;
    }
  }

  /** Without skip-missing, the pushed steps are exactly the steps taken while some collection has a next
      element. */
  lemma {:induction false} EmittedStepsWithoutSkip(its: seq<Option<seq<Cell>>>, n: nat)
    requires !AllEmpty(its) && n <= MaxLength(its)
    ensures var steps := EmittedSteps(its, false, n);
            |steps| == n && forall t :: 0 <= t < n ==> steps[t] == StepCells(its, t)
  {
    if n > 0 {
      EmittedStepsWithoutSkip(its, n - 1);
      EmittedStepsPrefix(its, false, n);
      HasNextBelowMaxLength(its, n - 1);
      assert Emitted(its, false, n - 1);
      var prior := EmittedSteps(its, false, n - 1);
      var steps := EmittedSteps(its, false, n);
      forall t | 0 <= t < n
        ensures steps[t] == StepCells(its, t)
      {
        if t < n - 1 {
          assert steps[t] == prior[t];
        }
      }
    }
  }

  /** A row with no collection among its selected cells yields exactly one row, under its own key and
      with all-missing new cells, or no row with skip-missing on. */
  lemma UngroupRowWithoutCollections(row: Row, colIndices: seq<nat>, skipMissingValues: bool, removeCollectionCol: bool)
    requires ValidSelection(colIndices, |row.cells|)
    requires forall i :: 0 <= i < |colIndices| ==> !row.cells[colIndices[i]].Collection?
    ensures var rows := UngroupRow(row, colIndices, skipMissingValues, removeCollectionCol);
            && (skipMissingValues ==> rows == [])
            && (!skipMissingValues ==>
                  |rows| == 1 && rows[0].key == row.key &&
                  rows[0].cells == Clone(row.cells, colIndices, !removeCollectionCol, Missings(|colIndices|)))
  {
  }

  /** With no column selected the clone is the row's cells unchanged. */
  lemma {:induction false} CloneWithoutSelection(cells: seq<Cell>, keep: bool, n: nat)
    requires n <= |cells|
    ensures CloneUpTo(cells, [], keep, [], n) == cells[..n]
  {
    if n > 0 {
      CloneWithoutSelection(cells, keep, n - 1);
      assert cells[..n] == cells[..n - 1] + [cells[n - 1]];
    }
  }

  /** With no column selected a row takes the no-collection path: it comes out unchanged, or not at all
      with skip-missing on. */
  lemma UngroupRowWithoutColumns(row: Row, skipMissingValues: bool, removeCollectionCol: bool)
    ensures UngroupRow(row, [], skipMissingValues, removeCollectionCol) == if skipMissingValues then [] else [row]
  {
    var its := Iterators(row, []);
    assert NoCollections(its);
    CloneWithoutSelection(row.cells, !removeCollectionCol, |row.cells|);
    assert row.cells[..|row.cells|] == row.cells;
  }

  /** With no column selected every row takes the no-collection path: without skip-missing the output is
      the input, each row under its own key with its own cells; with skip-missing it is empty. */
  lemma {:induction false} UngroupWithoutColumns(input: seq<Row>, skipMissingValues: bool, removeCollectionCol: bool)
    ensures UngroupRows(input, [], skipMissingValues, removeCollectionCol) == if skipMissingValues then [] else input
  {
    if input != [] {
      var init := input[..|input| - 1];
      var last := input[|input| - 1];
      UngroupWithoutColumns(init, skipMissingValues, removeCollectionCol);
      UngroupRowWithoutColumns(last, skipMissingValues, removeCollectionCol);
      assert input == init + [last];
    }
  }

  /** When every selected cell is an empty collection, exactly one row `<key>_1` with all-missing new
      cells is pushed, even with skip-missing on. */
  lemma UngroupRowAllEmpty(row: Row, colIndices: seq<nat>, skipMissingValues: bool, removeCollectionCol: bool)
    requires ValidSelection(colIndices, |row.cells|) && |colIndices| > 0
    requires forall i :: 0 <= i < |colIndices| ==> row.cells[colIndices[i]] == Collection([])
    ensures var rows := UngroupRow(row, colIndices, skipMissingValues, removeCollectionCol);
            && |rows| == 1 && rows[0].key == SuffixedKey(row.key, 1)
            && rows[0].cells == Clone(row.cells, colIndices, !removeCollectionCol, Missings(|colIndices|))
  {
    var its := Iterators(row, colIndices);
    assert its[0].Some?;
    assert AllEmpty(its);
    assert StepCells(its, 0) == Missings(|colIndices|);
    assert EmittedSteps(its, skipMissingValues, 1) == [StepCells(its, 0)];
  }

  /** When a selected cell is not a collection and every collection is empty, no row is pushed at all. */
  lemma UngroupRowNonCollectionAndEmpty(row: Row, colIndices: seq<nat>, skipMissingValues: bool, removeCollectionCol: bool,
                                        i: nat, k: nat)
    requires ValidSelection(colIndices, |row.cells|)
    requires i < |colIndices| && !row.cells[colIndices[i]].Collection?
    requires k < |colIndices| && row.cells[colIndices[k]].Collection?
    requires forall j :: 0 <= j < |colIndices| && row.cells[colIndices[j]].Collection? ==>
               row.cells[colIndices[j]].elements == []
    ensures UngroupRow(row, colIndices, skipMissingValues, removeCollectionCol) == []
  {
    var its := Iterators(row, colIndices);
    assert its[k].Some? && its[i].None?;
    HasNextBelowMaxLength(its, 0);
  }

  lemma {:induction false} StepRowsAt(row: Row, colIndices: seq<nat>, keep: bool, steps: seq<seq<Cell>>, j: nat)
    requires ValidSelection(colIndices, |row.cells|)
    requires StepsFit(steps, |colIndices|)
    requires j < |steps|
    ensures |steps[j]| == |colIndices|
    ensures StepRows(row, colIndices, keep, steps)[j] == Row(SuffixedKey(row.key, j + 1), Clone(row.cells, colIndices, keep, steps[j]))
  {
    var n := |steps| - 1;
    if j < n {
      StepRowsAt(row, colIndices, keep, steps[..n], j);
    }
  }


  /** Otherwise the rows are keyed `<key>_1, <key>_2, ...` over the rows actually pushed, and there are at
      most as many as the longest collection has elements. */
  lemma UngroupRowKeys(row: Row, colIndices: seq<nat>, skipMissingValues: bool, removeCollectionCol: bool)
    requires ValidSelection(colIndices, |row.cells|)
    requires var its := Iterators(row, colIndices); !NoCollections(its) && !AllEmpty(its)
    ensures var rows := UngroupRow(row, colIndices, skipMissingValues, removeCollectionCol);
            && |rows| <= MaxLength(Iterators(row, colIndices))
            && forall j :: 0 <= j < |rows| ==> rows[j].key == SuffixedKey(row.key, j + 1)
  {
    var its := Iterators(row, colIndices);
    var steps := EmittedSteps(its, skipMissingValues, MaxLength(its));
    var rows := UngroupRow(row, colIndices, skipMissingValues, removeCollectionCol);
    UngroupRowIsStepRows(row, colIndices, skipMissingValues, removeCollectionCol);
    EmittedStepsBound(its, skipMissingValues, MaxLength(its));
    forall j | 0 <= j < |rows|
      ensures rows[j].key == SuffixedKey(row.key, j + 1)
    {
      StepRowsAt(row, colIndices, !removeCollectionCol, steps, j);
    }
  }

  lemma StepRowFromEmitted(row: Row, colIndices: seq<nat>, keep: bool, its: seq<Option<seq<Cell>>>,
                           skipMissingValues: bool, n: nat, j: nat)
    requires ValidSelection(colIndices, |row.cells|) && |its| == |colIndices|
    requires j < |EmittedSteps(its, skipMissingValues, n)|
    ensures var rows := StepRows(row, colIndices, keep, EmittedSteps(its, skipMissingValues, n));
            exists t: nat :: t < n && Emitted(its, skipMissingValues, t) &&
                        rows[j].cells == Clone(row.cells, colIndices, keep, StepCells(its, t))
  {
    var steps := EmittedSteps(its, skipMissingValues, n);
    var t := EmittedStepAt(its, skipMissingValues, n, j);
    StepRowsAt(row, colIndices, keep, steps, j);
  }

  /** Every pushed row carries the cells of one lockstep step that qualifies (see `Emitted`: a step with
      a next element and, with skip-missing on, not all-missing): the step's element of every collection,
      missing where a collection is exhausted. */
  lemma UngroupRowSteps(row: Row, colIndices: seq<nat>, skipMissingValues: bool, removeCollectionCol: bool)
    requires ValidSelection(colIndices, |row.cells|)
    requires var its := Iterators(row, colIndices); !NoCollections(its) && !AllEmpty(its)
    ensures var its := Iterators(row, colIndices);
            var rows := UngroupRow(row, colIndices, skipMissingValues, removeCollectionCol);
            forall j :: 0 <= j < |rows| ==>
              exists t: nat :: t < MaxLength(its) && Emitted(its, skipMissingValues, t) &&
                          rows[j].cells == Clone(row.cells, colIndices, !removeCollectionCol, StepCells(its, t))
  {
    var its := Iterators(row, colIndices);
    var steps := EmittedSteps(its, skipMissingValues, MaxLength(its));
    var rows := UngroupRow(row, colIndices, skipMissingValues, removeCollectionCol);
    UngroupRowIsStepRows(row, colIndices, skipMissingValues, removeCollectionCol);
    forall j | 0 <= j < |rows|
      ensures exists t: nat :: t < MaxLength(its) && Emitted(its, skipMissingValues, t) &&
                          rows[j].cells == Clone(row.cells, colIndices, !removeCollectionCol, StepCells(its, t))
    {
      StepRowFromEmitted(row, colIndices, !removeCollectionCol, its, skipMissingValues, MaxLength(its), j);
    }
  }

  /** With skip-missing on, a step is pushed exactly when some collection has a next element and not all
      of its new cells are missing; every such step is pushed. */
  lemma {:induction false} SkipMissingSteps(its: seq<Option<seq<Cell>>>, t: nat)
    requires !AllEmpty(its)
    ensures Emitted(its, true, t) <==> HasNext(its, t) && !AllMissing(StepCells(its, t))
    ensures Emitted(its, true, t) ==> StepCells(its, t) in EmittedSteps(its, true, t + 1)
  {
    EmittedStepsComplete(its, true, t + 1);
  }

  /** Without skip-missing one row is pushed per element of the longest collection, and the `j`-th row
      carries the `j`-th element of every collection, padded with missing cells. */
  lemma UngroupRowLockstep(row: Row, colIndices: seq<nat>, removeCollectionCol: bool)
    requires ValidSelection(colIndices, |row.cells|)
    requires var its := Iterators(row, colIndices); !NoCollections(its) && !AllEmpty(its)
    ensures var its := Iterators(row, colIndices);
            var rows := UngroupRow(row, colIndices, false, removeCollectionCol);
            && |rows| == MaxLength(its)
            && forall j :: 0 <= j < |rows| ==>
                 rows[j].cells == Clone(row.cells, colIndices, !removeCollectionCol, StepCells(its, j))
  {
    var its := Iterators(row, colIndices);
    var keep := !removeCollectionCol;
    var steps := EmittedSteps(its, false, MaxLength(its));
    var rows := UngroupRow(row, colIndices, false, removeCollectionCol);
    UngroupRowIsStepRows(row, colIndices, false, removeCollectionCol);
    EmittedStepsWithoutSkip(its, MaxLength(its));
    forall j | 0 <= j < |rows|
      ensures rows[j].cells == Clone(row.cells, colIndices, keep, StepCells(its, j))
    {
      StepRowsAt(row, colIndices, keep, steps, j);
    }
  }

  lemma StepRowKeysDistinct(row: Row, colIndices: seq<nat>, keep: bool, steps: seq<seq<Cell>>)
    requires ValidSelection(colIndices, |row.cells|)
    requires StepsFit(steps, |colIndices|)
    ensures var rows := StepRows(row, colIndices, keep, steps);
            forall j, k :: 0 <= j < k < |rows| ==> rows[j].key != rows[k].key
  {
    var rows := StepRows(row, colIndices, keep, steps);
    forall j, k | 0 <= j < k < |rows|
      ensures rows[j].key != rows[k].key
    {
      StepRowsAt(row, colIndices, keep, steps, j);
      StepRowsAt(row, colIndices, keep, steps, k);
      SuffixedKeysDistinct(row.key, j + 1, k + 1);
    }
  }

  /** The keys pushed for one row are pairwise different. */
  lemma UngroupRowKeysDistinct(row: Row, colIndices: seq<nat>, skipMissingValues: bool, removeCollectionCol: bool)
    requires ValidSelection(colIndices, |row.cells|)
    ensures var rows := UngroupRow(row, colIndices, skipMissingValues, removeCollectionCol);
            forall j, k :: 0 <= j < k < |rows| ==> rows[j].key != rows[k].key
  {
    var its := Iterators(row, colIndices);
    if !NoCollections(its) {
      UngroupRowIsStepRows(row, colIndices, skipMissingValues, removeCollectionCol);
      StepRowKeysDistinct(row, colIndices, !removeCollectionCol, EmittedSteps(its, skipMissingValues, StepCount(its)));
    }
  }

  /** Every key in the hilite mapping is the key of an input row that produced rows, and maps to the keys
      of the rows it produced (the last such row when input keys repeat); every input row that produced
      rows has an entry. */
  lemma {:induction false} HiliteMapEntries(input: seq<Row>, colIndices: seq<nat>, skipMissingValues: bool,
                                            removeCollectionCol: bool)
    requires forall row :: row in input ==> ValidSelection(colIndices, |row.cells|)
    ensures var m := HiliteMap(input, colIndices, skipMissingValues, removeCollectionCol);
            && (forall row :: row in input && UngroupRow(row, colIndices, skipMissingValues, removeCollectionCol) != [] ==>
                  row.key in m)
            && (forall k :: k in m ==>
                  exists row :: && row in input && row.key == k
                                && UngroupRow(row, colIndices, skipMissingValues, removeCollectionCol) != []
                                && m[k] == KeysOf(UngroupRow(row, colIndices, skipMissingValues, removeCollectionCol)))
  {
    if input != [] {
      var prefix := input[..|input| - 1];
      var last := input[|input| - 1];
      assert forall row :: row in input <==> row in prefix || row == last;
      HiliteMapEntries(prefix, colIndices, skipMissingValues, removeCollectionCol);
      var before := HiliteMap(prefix, colIndices, skipMissingValues, removeCollectionCol);
      var m := HiliteMap(input, colIndices, skipMissingValues, removeCollectionCol);
      var produced := UngroupRow(last, colIndices, skipMissingValues, removeCollectionCol);
      forall k | k in m
        ensures exists row :: && row in input && row.key == k
                              && UngroupRow(row, colIndices, skipMissingValues, removeCollectionCol) != []
                              && m[k] == KeysOf(UngroupRow(row, colIndices, skipMissingValues, removeCollectionCol))
      {
        if produced != [] && k == last.key {
          assert m[k] == KeysOf(produced);
        } else {
          assert k in before && m[k] == before[k];
          var row :| && row in prefix && row.key == k
                     && UngroupRow(row, colIndices, skipMissingValues, removeCollectionCol) != []
                     && before[k] == KeysOf(UngroupRow(row, colIndices, skipMissingValues, removeCollectionCol));
          assert row in input;
        }
      }
    }
  }

  // ---------------------------------------------------------------------------
  // compute
  // ---------------------------------------------------------------------------

  /** The inner loop of one do-while step: takes the next element of every collection that has one and
      pads the others with missing cells, tracking whether any collection had an element, whether all new
      cells are missing, and whether every collection is still an empty collection. */
  method Advance(its: seq<Option<seq<Cell>>>, t: nat, allEmpty: bool)
    returns (newCells: array<Cell>, continueLoop: bool, allMissing: bool, allEmpty': bool)
    ensures fresh(newCells)
    ensures newCells[..] == StepCells(its, t)
    ensures continueLoop == HasNext(its, t)
    ensures allMissing == AllMissing(StepCells(its, t))
    ensures allEmpty' == (allEmpty && Exhausted(its, t))
  {
    ghost var step := StepCells(its, t);
    allMissing := true;
    continueLoop := false;
    allEmpty' := allEmpty;
    newCells := new Cell[|its|](_ => Missing);
    for i := 0 to |its|
      invariant newCells[..i] == step[..i]
      invariant continueLoop <==> exists k :: 0 <= k < i && its[k].Some? && t < |its[k].value|
      invariant allMissing <==> forall k :: 0 <= k < i ==> step[k].Missing?
      invariant allEmpty' <==> allEmpty && forall k :: 0 <= k < i ==> its[k].Some? && t >= |its[k].value|
    {
      var collection := its[i];
      var newCell;
      if collection.Some? && t < |collection.value| {
        allEmpty' := false;
        continueLoop := true;
        newCell := collection.value[t];
      } else {
        if collection.None? {
          allEmpty' := false;
        }
        newCell := Missing;
      }
      if !newCell.Missing? {
        allMissing := false;
      }
      newCells[i] := newCell;
      assert newCells[..i + 1] == newCells[..i] + [newCell];
    }
    assert newCells[..] == newCells[..|its|];
  }

  lemma KeysOfSnoc(rows: seq<Row>, r: Row)
    ensures KeysOf(rows + [r]) == KeysOf(rows) + {r.key}
  {
    assert forall x :: x in rows + [r] <==> x in rows || x == r;
  }

  /** Reads the collection of every selected cell: the collection's elements, or `None` (a null collection)
      for a cell that is not a collection. */
  method OpenIterators(row: Row, colIndices: seq<nat>) returns (iterators: array<Option<seq<Cell>>>, allMissing: bool)
    requires ValidSelection(colIndices, |row.cells|)
    ensures fresh(iterators)
    ensures iterators[..] == Iterators(row, colIndices)
    ensures allMissing == NoCollections(Iterators(row, colIndices))
  {
    ghost var its := Iterators(row, colIndices);
    iterators := new Option<seq<Cell>>[|colIndices|](_ => None);
    allMissing := true;
    for i := 0 to |colIndices|
      invariant iterators[..i] == its[..i]
      invariant allMissing <==> forall k :: 0 <= k < i ==> its[k].None?
    {
      var cell := row.cells[colIndices[i]];
      var collection;
      if cell.Collection? {
        collection := Some(cell.elements);
        allMissing := false;
      } else {
        collection := None;
      }
      iterators[i] := collection;
      assert iterators[..i + 1] == iterators[..i] + [collection];
    }
    assert iterators[..] == iterators[..|colIndices|];
  }

  /** Whether every collection is present and has no element at step `t`: what the Java flag `allEmpty`
      checks during one step. */
  predicate Exhausted(its: seq<Option<seq<Cell>>>, t: nat)
  {
    forall i :: 0 <= i < |its| ==> its[i].Some? && t >= |its[i].value|
  }

  /** Outside the no-collection case, the rows pushed are those of the emitted steps. */
  lemma UngroupRowIsStepRows(row: Row, colIndices: seq<nat>, skipMissingValues: bool, removeCollectionCol: bool)
    requires ValidSelection(colIndices, |row.cells|)
    requires !NoCollections(Iterators(row, colIndices))
    ensures var its := Iterators(row, colIndices);
            UngroupRow(row, colIndices, skipMissingValues, removeCollectionCol) ==
              StepRows(row, colIndices, !removeCollectionCol, EmittedSteps(its, skipMissingValues, StepCount(its)))
  {
  }

  /** What the flags one do-while step computes at step `t` say about the step: `allEmpty'` holds
      exactly when every collection is empty, and the step is emitted exactly when the loop body goes on
      to push a row. */
  lemma {:induction false} StepFlags(its: seq<Option<seq<Cell>>>, skipMissingValues: bool, t: nat, allEmpty: bool,
                                     continueLoop: bool, allMissing: bool, allEmpty': bool)
    requires t <= StepCount(its)
    requires t > 0 ==> !AllEmpty(its)
    requires allEmpty <==> t == 0
    requires continueLoop == HasNext(its, t)
    requires allMissing == AllMissing(StepCells(its, t))
    requires allEmpty' == (allEmpty && Exhausted(its, t))
    ensures allEmpty' == AllEmpty(its)
    ensures allEmpty' ==> !continueLoop && StepCount(its) == t + 1
    ensures !allEmpty' && !continueLoop ==> t == StepCount(its)
    ensures !allEmpty' && continueLoop ==> t < StepCount(its)
    ensures Emitted(its, skipMissingValues, t) <==> allEmpty' || (continueLoop && !(allMissing && skipMissingValues))
  {
    HasNextBelowMaxLength(its, t);
    if AllEmpty(its) {
      AllEmptyHasNoSteps(its);
    }
    if t == 0 && Exhausted(its, t) {
      forall i | 0 <= i < |its|
        ensures its[i].Some? && |its[i].value| == 0
      {
      }
    }
  }

  lemma StepRowsSnoc(row: Row, colIndices: seq<nat>, keep: bool, steps: seq<seq<Cell>>, step: seq<Cell>)
    requires ValidSelection(colIndices, |row.cells|)
    requires StepsFit(steps, |colIndices|)
    requires |step| == |colIndices|
    ensures StepRows(row, colIndices, keep, steps + [step]) ==
              StepRows(row, colIndices, keep, steps) +
              [Row(SuffixedKey(row.key, |steps| + 1), Clone(row.cells, colIndices, keep, step))]
  {
    assert (steps + [step])[..|steps|] == steps;
  }


  /** The rows pushed during the first `t` steps. */
  function RowsAfter(row: Row, colIndices: seq<nat>, keep: bool, its: seq<Option<seq<Cell>>>, skipMissingValues: bool,
                     t: nat): seq<Row>
    requires ValidSelection(colIndices, |row.cells|) && |its| == |colIndices|
  {
    StepRows(row, colIndices, keep, EmittedSteps(its, skipMissingValues, t))
  }

  /** One step appends the row of the step when it is emitted, keyed by the next counter value, and
      nothing otherwise. */
  lemma AdvanceRows(row: Row, colIndices: seq<nat>, keep: bool, its: seq<Option<seq<Cell>>>, skipMissingValues: bool,
                    t: nat)
    requires ValidSelection(colIndices, |row.cells|) && |its| == |colIndices|
    ensures var rows := RowsAfter(row, colIndices, keep, its, skipMissingValues, t);
            RowsAfter(row, colIndices, keep, its, skipMissingValues, t + 1) ==
              if Emitted(its, skipMissingValues, t) then
                rows + [Row(SuffixedKey(row.key, |rows| + 1), Clone(row.cells, colIndices, keep, StepCells(its, t)))]
              else rows
  {
    var steps := EmittedSteps(its, skipMissingValues, t);
    if Emitted(its, skipMissingValues, t) {
      assert EmittedSteps(its, skipMissingValues, t + 1) == steps + [StepCells(its, t)];
      StepRowsSnoc(row, colIndices, keep, steps, StepCells(its, t));
    } else {
      assert EmittedSteps(its, skipMissingValues, t + 1) == steps;
    }
  }

  /** The rows of the steps emitted among the first `t` are pushed under consecutive counter values, and
      their keys are collected. */
  ghost predicate Pushed(row: Row, colIndices: seq<nat>, keep: bool, its: seq<Option<seq<Cell>>>,
                         skipMissingValues: bool, t: nat, pushed: seq<Row>, keys: set<string>, counter: nat)
    requires ValidSelection(colIndices, |row.cells|) && |its| == |colIndices|
  {
    && pushed == RowsAfter(row, colIndices, keep, its, skipMissingValues, t)
    && counter == |pushed| + 1
    && keys == KeysOf(pushed)
  }

  /** The state of the do-while loop before step `t`: the flag `allEmpty` is still set only before the
      first step, and the loop is still running only while not every collection is empty. */
  ghost predicate Expanding(row: Row, colIndices: seq<nat>, keep: bool, its: seq<Option<seq<Cell>>>,
                            skipMissingValues: bool, t: nat, allEmpty: bool, pushed: seq<Row>, keys: set<string>,
                            counter: nat)
    requires ValidSelection(colIndices, |row.cells|) && |its| == |colIndices|
  {
    && t <= StepCount(its)
    && (allEmpty <==> t == 0)
    && (t > 0 ==> !AllEmpty(its))
    && Pushed(row, colIndices, keep, its, skipMissingValues, t, pushed, keys, counter)
  }

  /** One pass of the do-while loop of `compute`: advances every collection by one element and pushes
      the new row unless the step ends the loop or skip-missing drops it. */
  method Step(row: Row, colIndices: seq<nat>, its: seq<Option<seq<Cell>>>, skipMissingValues: bool,
              removeCollectionCol: bool, t: nat, allEmpty: bool, pushed: seq<Row>, keys: set<string>, counter: nat)
    returns (continueLoop: bool, allEmpty': bool, pushed': seq<Row>, keys': set<string>, counter': nat)
    requires ValidSelection(colIndices, |row.cells|) && |its| == |colIndices|
    requires Expanding(row, colIndices, !removeCollectionCol, its, skipMissingValues, t, allEmpty, pushed, keys, counter)
    ensures continueLoop ==>
              Expanding(row, colIndices, !removeCollectionCol, its, skipMissingValues, t + 1, allEmpty', pushed', keys',
                        counter')
    ensures !continueLoop ==>
              Pushed(row, colIndices, !removeCollectionCol, its, skipMissingValues, StepCount(its), pushed', keys', counter')
  {
    var keep := !removeCollectionCol;
    var newCells, allMissingStep;
    newCells, continueLoop, allMissingStep, allEmpty' := Advance(its, t, allEmpty);
    StepFlags(its, skipMissingValues, t, allEmpty, continueLoop, allMissingStep, allEmpty');
    AdvanceRows(row, colIndices, keep, its, skipMissingValues, t);
    pushed', keys', counter' := pushed, keys, counter;
    if !allEmpty' && !continueLoop {
      return;  // break
    }
    if !allEmpty' && allMissingStep && skipMissingValues {
      return;  // continue
    }
    var newKey := SuffixedKey(row.key, counter);
    var newRow := CreateClone(newKey, row, colIndices, removeCollectionCol, newCells[..]);
    KeysOfSnoc(pushed, newRow);
    pushed' := pushed + [newRow];
    keys' := keys + {newKey};
    counter' := counter + 1;
  }

  /** The do-while loop of `compute` over the collections of one row with at least one collection. */
  method ExpandCollections(row: Row, colIndices: seq<nat>, its: seq<Option<seq<Cell>>>, skipMissingValues: bool,
                           removeCollectionCol: bool)
    returns (pushed: seq<Row>, keys: set<string>)
    requires ValidSelection(colIndices, |row.cells|) && |its| == |colIndices|
    ensures pushed == RowsAfter(row, colIndices, !removeCollectionCol, its, skipMissingValues, StepCount(its))
    ensures keys == KeysOf(pushed)
  {
    pushed := [];
    keys := {};
    var counter := 1;
    var continueLoop := true;
    var allEmpty := true;
    var t := 0;  // how far the iterators have advanced
    while continueLoop
      invariant continueLoop ==>
                  Expanding(row, colIndices, !removeCollectionCol, its, skipMissingValues, t, allEmpty, pushed, keys, counter)
      invariant !continueLoop ==>
                  Pushed(row, colIndices, !removeCollectionCol, its, skipMissingValues, StepCount(its), pushed, keys, counter)
      decreases StepCount(its) + 1 - t
    {
      continueLoop, allEmpty, pushed, keys, counter :=
        Step(row, colIndices, its, skipMissingValues, removeCollectionCol, t, allEmpty, pushed, keys, counter);
      t := t + 1;
    }
  }


  /** The body of the row loop of `compute`: pushes the rows one input row expands into and collects
      their keys. */
  method ExpandRow(row: Row, colIndices: seq<nat>, skipMissingValues: bool, removeCollectionCol: bool)
    returns (pushed: seq<Row>, keys: set<string>)
    requires ValidSelection(colIndices, |row.cells|)
    ensures pushed == UngroupRow(row, colIndices, skipMissingValues, removeCollectionCol)
    ensures keys == KeysOf(pushed)
  {
    var iterators, allMissing := OpenIterators(row, colIndices);
    if allMissing {
      pushed := [];
      keys := {};
      if !skipMissingValues {
        var newRow := CreateClone(row.key, row, colIndices, removeCollectionCol, Missings(|colIndices|));
        pushed := [newRow];
        keys := {row.key};
        assert KeysOf(pushed) == {row.key};
      }
      return;
    }
    UngroupRowIsStepRows(row, colIndices, skipMissingValues, removeCollectionCol);
    pushed, keys := ExpandCollections(row, colIndices, iterators[..], skipMissingValues, removeCollectionCol);
  }

  /** Extending the processed prefix by one row appends that row's expansion and updates its hilite entry. */
  lemma UngroupPrefixStep(input: seq<Row>, colIndices: seq<nat>, skipMissingValues: bool, removeCollectionCol: bool,
                          k: nat)
    requires forall row :: row in input ==> ValidSelection(colIndices, |row.cells|)
    requires k < |input|
    ensures input[k] in input
    ensures var produced := UngroupRow(input[k], colIndices, skipMissingValues, removeCollectionCol);
            && UngroupRows(input[..k + 1], colIndices, skipMissingValues, removeCollectionCol) ==
                 UngroupRows(input[..k], colIndices, skipMissingValues, removeCollectionCol) + produced
            && HiliteMap(input[..k + 1], colIndices, skipMissingValues, removeCollectionCol) ==
                 var m := HiliteMap(input[..k], colIndices, skipMissingValues, removeCollectionCol);
                 if produced == [] then m else m[input[k].key := KeysOf(produced)]
  {
    assert input[..k + 1][..k] == input[..k];
    assert input[..k + 1][k] == input[k];
  }

  /** `compute`: ungroups every input row in order and, with hiliting enabled, records for each input key
      the keys of the rows it produced. */
  method Compute(input: seq<Row>, colIndices: seq<nat>, enableHilite: bool, skipMissingValues: bool,
                 removeCollectionCol: bool)
    returns (output: seq<Row>, hilite: Option<map<string, set<string>>>)
    requires forall row :: row in input ==> ValidSelection(colIndices, |row.cells|)
    ensures output == UngroupRows(input, colIndices, skipMissingValues, removeCollectionCol)
    ensures hilite == if enableHilite then Some(HiliteMap(input, colIndices, skipMissingValues, removeCollectionCol))
                      else None
  {
    var hiliteMapping: map<string, set<string>> := map[];
    output := [];
    var rowCounter := 0;
    while rowCounter < |input|
      invariant rowCounter <= |input|
      invariant output == UngroupRows(input[..rowCounter], colIndices, skipMissingValues, removeCollectionCol)
      invariant enableHilite ==> hiliteMapping == HiliteMap(input[..rowCounter], colIndices, skipMissingValues, removeCollectionCol)
    {
      var row := input[rowCounter];
      UngroupPrefixStep(input, colIndices, skipMissingValues, removeCollectionCol, rowCounter);
      rowCounter := rowCounter + 1;
      var pushed, keys := ExpandRow(row, colIndices, skipMissingValues, removeCollectionCol);
      output := output + pushed;
      if enableHilite && |pushed| > 0 {
        hiliteMapping := hiliteMapping[row.key := keys];
      }
    }
    assert input[..rowCounter] == input;
    hilite := if enableHilite then Some(hiliteMapping) else None;
  }
}

/** The loops of the table helpers and the column steps, written as the
    JavaScript writes them, each proved to compute the function of module
    TableSpec that states what it does. */
module TableSteps {
  import opened Outcomes
  import opened DocModel
  import opened TableSpec

  // ---------------------------------------------------------------------
  // createTable

  /** `createTable`: one row of `columns` copies of the cell, then `rows`
      copies of that row. */
  method CreateTable(tableType: string, rowType: string, cell: Node, rows: int, columns: int,
                     attrs: Option<Attrs>)
    returns (table: Node)
    ensures table == NewTable(tableType, rowType, cell, rows, columns, attrs)
  {
    var tableAttrs := TableAttrs(attrs, columns);
    var cells: seq<Node> := [];
    var i := 0;
    while i < columns
      invariant 0 <= i <= Count(columns)
      invariant cells == seq(i, _ => cell)
    {
      cells := cells + [cell];
      i := i + 1;
    }
    var row := Elem(rowType, map["columns" := Num(columns)], cells);
    var rowNodes: seq<Node> := [];
    i := 0;
    while i < rows
      invariant 0 <= i <= Count(rows)
      invariant rowNodes == seq(i, _ => row)
    {
      rowNodes := rowNodes + [row];
      i := i + 1;
    }
    table := Elem(tableType, tableAttrs, rowNodes);
  }

  // ---------------------------------------------------------------------
  // create

  /** The inner loop of both `create`s: the position before cell
      `columnIndex` of a row whose content starts at `start`, or the
      `RangeError` of `row.child(i)` past the last cell. */
  method CellStart(row: Node, start: int, columnIndex: int) returns (r: Result<int>)
    ensures columnIndex <= |Children(row)| ==> r == Ok(start + SizeOf(Children(row)[..Count(columnIndex)]))
    ensures columnIndex > |Children(row)| ==> r == Err(IndexError())
  {
    var cs := Children(row);
    var cellPos := start;
    var i := 0;
    while i < columnIndex
      invariant 0 <= i <= Count(columnIndex) && i <= |cs|
      invariant cellPos == start + SizeOf(cs[..i])
    {
      if i >= |cs| {
        return Err(IndexError());
      }
      SizeOfSnoc(cs, i);
      cellPos := cellPos + Size(cs[i]);
      i := i + 1;
    }
    return Ok(cellPos);
  }

  /** `AddColumnStep.create`. */
  method CreateAddStep(doc: Node, tablePos: int, columnIndex: int, cell: Node) returns (r: Result<Step>)
    requires doc.Elem?
    ensures r == CreateAdd(doc, tablePos, columnIndex, cell)
  {
    var found := TableAt(doc, tablePos);
    if found.Err? {
      return Err(found.error);
    }
    r := AddAtRows(Children(found.value), tablePos, columnIndex, cell);
  }

  /** The row walk of `AddColumnStep.create`: `rowOff` is the offset of
      the row inside the table. */
  method AddAtRows(rows: seq<Node>, tablePos: int, columnIndex: int, cell: Node) returns (r: Result<Step>)
    ensures r == AddAt(rows, tablePos, columnIndex, cell)
  {
    var positions: seq<int> := [];
    var cells: seq<Node> := [];
    var rowOff := 0;
    var i := 0;
    while i < |rows|
      invariant 0 <= i <= |rows| && rowOff == SizeOf(rows[..i])
      invariant forall k :: 0 <= k < i ==> columnIndex <= |Children(rows[k])|
      invariant positions == CellStarts(rows, tablePos, columnIndex, i)
      invariant cells == seq(i, _ => cell)
    {
      var cellPos := CellStart(rows[i], tablePos + 2 + rowOff, columnIndex);
      if cellPos.Err? {
        assert columnIndex > |Children(rows[i])|;
        return Err(cellPos.error);
      }
      CellStartsNext(rows, tablePos, columnIndex, i);
      positions := positions + [cellPos.value];
      cells := cells + [cell];
      SizeOfSnoc(rows, i);
      rowOff := rowOff + Size(rows[i]);
      i := i + 1;
    }
    return Ok(AddColumn(positions, cells));
  }

  lemma CellStartsNext(rows: seq<Node>, tablePos: int, columnIndex: int, n: nat)
    requires n < |rows| && columnIndex <= |Children(rows[n])|
    requires forall k :: 0 <= k < n ==> columnIndex <= |Children(rows[k])|
    ensures CellStarts(rows, tablePos, columnIndex, n + 1)
         == CellStarts(rows, tablePos, columnIndex, n) + [RowCellPos(rows, tablePos, n, columnIndex)]
  {
  }

  lemma CellEndsNext(rows: seq<Node>, tablePos: int, columnIndex: int, n: nat)
    requires n < |rows| && HasCell(rows[n], columnIndex)
    requires forall k :: 0 <= k < n ==> HasCell(rows[k], columnIndex)
    ensures CellEnds(rows, tablePos, columnIndex, n + 1)
         == CellEnds(rows, tablePos, columnIndex, n)
            + [RowCellPos(rows, tablePos, n, columnIndex) + Size(Children(rows[n])[columnIndex])]
  {
  }

  /** `RemoveColumnStep.create`: `row.child(columnIndex)` must exist in
      every row. */
  method CreateRemoveStep(doc: Node, tablePos: int, columnIndex: int) returns (r: Result<Step>)
    requires doc.Elem?
    ensures r == CreateRemove(doc, tablePos, columnIndex)
  {
    var found := TableAt(doc, tablePos);
    if found.Err? {
      return Err(found.error);
    }
    r := RemoveAtRows(Children(found.value), tablePos, columnIndex);
  }

  /** The row walk of `RemoveColumnStep.create`. */
  method RemoveAtRows(rows: seq<Node>, tablePos: int, columnIndex: int) returns (r: Result<Step>)
    ensures r == RemoveAt(rows, tablePos, columnIndex)
  {
    var from: seq<int> := [];
    var to: seq<int> := [];
    var rowOff := 0;
    var i := 0;
    while i < |rows|
      invariant 0 <= i <= |rows| && rowOff == SizeOf(rows[..i])
      invariant forall k :: 0 <= k < i ==> HasCell(rows[k], columnIndex)
      invariant from == CellStarts(rows, tablePos, columnIndex, i)
      invariant to == CellEnds(rows, tablePos, columnIndex, i)
    {
      var cellPos := CellStart(rows[i], tablePos + 2 + rowOff, columnIndex);
      if cellPos.Err? {
        assert !HasCell(rows[i], columnIndex);
        return Err(cellPos.error);
      }
      if !HasCell(rows[i], columnIndex) {
        return Err(IndexError());
      }
      CellStartsNext(rows, tablePos, columnIndex, i);
      CellEndsNext(rows, tablePos, columnIndex, i);
      from := from + [cellPos.value];
      to := to + [cellPos.value + Size(Children(rows[i])[columnIndex])];
      SizeOfSnoc(rows, i);
      rowOff := rowOff + Size(rows[i]);
      i := i + 1;
    }
    return Ok(RemoveColumn(from, to));
  }

  // ---------------------------------------------------------------------
  // apply

  /** The first loop of `apply`: check every position in row order, fixing
      the anchor at the first. */
  method CheckLoop(step: Step, doc: Node) returns (r: Result<Option<Anchor>>)
    requires doc.Elem?
    ensures r == CheckRows(step, Checks(step, doc), 0, None)
  {
    ghost var checks := Checks(step, doc);
    var n := |Starts(step)|;
    var anchor: Option<Anchor> := None;
    var i := 0;
    while i < n
      invariant 0 <= i <= n == |checks|
      invariant CheckRows(step, checks, i, anchor) == CheckRows(step, checks, 0, None)
    {
      var c := CheckPos(step, doc, i);
      assert c == checks[i];
      if c.Err? {
        return Err(c.error);
      }
      var rp := c.value;
      var d := rp.Depth();
      if anchor.None? {
        var table := rp.NodeAtDepth(d - 1);
        if |Children(table)| != n {
          return Err(StepFailed("Mismatch in number of rows"));
        }
        anchor := Some(Anchor(table, rp.Before(d - 1), rp.IndexAt(d), d - 1));
      } else if !SameColumn(rp, anchor.value) {
        return Err(StepFailed(if step.AddColumn? then "Column insert positions not consistent"
                              else "Column delete positions not consistent"));
      }
      i := i + 1;
    }
    return Ok(anchor);
  }

  /** The inner loop of `AddColumnStep.apply`: the new cell goes first when
      the index is 0, else right after child `index - 1`. */
  method AddRow(row: Node, index: nat, cell: Node) returns (r: Node)
    ensures r == AddedRow(row, index, cell)
  {
    var cs := Children(row);
    var rowCells := if index == 0 then [cell] else [];
    var j := 0;
    while j < |cs|
      invariant 0 <= j <= |cs|
      invariant rowCells == InsertedUpTo(cs, index, cell, j)
    {
      rowCells := rowCells + [cs[j]];
      if j + 1 == index {
        rowCells := rowCells + [cell];
      }
      j := j + 1;
    }
    r := Elem(TypeOf(row), AdjustColumns(AttrsOf(row), 1), rowCells);
  }

  /** The inner loop of `RemoveColumnStep.apply`: every child but `index`. */
  method RemoveRow(row: Node, index: nat) returns (r: Node)
    ensures r == RemovedRow(row, index)
  {
    var cs := Children(row);
    var rowCells: seq<Node> := [];
    var j := 0;
    while j < |cs|
      invariant 0 <= j <= |cs|
      invariant rowCells == RemovedUpTo(cs, index, j)
    {
      if j != index {
        rowCells := rowCells + [cs[j]];
      }
      j := j + 1;
    }
    r := Elem(TypeOf(row), AdjustColumns(AttrsOf(row), -1), rowCells);
  }

  /** The row loop of `AddColumnStep.apply`. Row `i` takes `cells[i]`;
      a missing one is `undefined`, which building the row rejects. */
  method AddRows(table: Node, index: nat, cells: seq<Node>) returns (r: Result<Node>)
    ensures |cells| >= |Children(table)| ==> r == Ok(AddedTable(table, index, cells))
    ensures |cells| < |Children(table)| ==> r == Err(Thrown("TypeError: cell is undefined"))
  {
    var rows := Children(table);
    var updatedRows: seq<Node> := [];
    var i := 0;
    while i < |rows|
      invariant 0 <= i <= |rows| && i <= |cells|
      invariant |updatedRows| == i
      invariant forall k :: 0 <= k < i ==> updatedRows[k] == AddedRow(rows[k], index, cells[k])
    {
      if i >= |cells| {
        return Err(Thrown("TypeError: cell is undefined"));
      }
      var row := AddRow(rows[i], index, cells[i]);
      updatedRows := updatedRows + [row];
      i := i + 1;
    }
    r := Ok(Elem(TypeOf(table), AdjustColumns(AttrsOf(table), 1), updatedRows));
    assert r.value.content == AddedTable(table, index, cells).content;
  }

  /** The row loop of `RemoveColumnStep.apply`. */
  method RemoveRows(table: Node, index: nat) returns (r: Node)
    ensures r == RemovedTable(table, index)
  {
    var rows := Children(table);
    var updatedRows: seq<Node> := [];
    var i := 0;
    while i < |rows|
      invariant 0 <= i <= |rows|
      invariant |updatedRows| == i
      invariant forall k :: 0 <= k < i ==> updatedRows[k] == RemovedRow(rows[k], index)
    {
      var row := RemoveRow(rows[i], index);
      updatedRows := updatedRows + [row];
      i := i + 1;
    }
    r := Elem(TypeOf(table), AdjustColumns(AttrsOf(table), -1), updatedRows);
  }

  /** `apply` of either step: the check loop, then the table rebuilt and
      swapped in. */
  method ApplyStep(step: Step, doc: Node) returns (r: Result<Node>)
    requires doc.Elem?
    ensures r == Apply(step, doc)
  {
    var checked := CheckLoop(step, doc);
    if checked.Err? {
      return Err(checked.error);
    }
    if checked.value.None? {
      return Err(Thrown("TypeError: table is null"));
    }
    var a := checked.value.value;
    var updated: Node;
    match step {
      case AddColumn(positions, cells) =>
        var t := AddRows(a.table, a.index, cells);
        if t.Err? {
          return Err(t.error);
        }
        updated := t.value;
      case RemoveColumn(_, _) =>
        updated := RemoveRows(a.table, a.index);
    }
    return Ok(SwapTable(doc, Starts(step)[0], a, updated));
  }

  // ---------------------------------------------------------------------
  // posMap

  /** `posMap`: one range per position. */
  method PosMapRanges(step: Step) returns (ranges: seq<Range>)
    requires WellFormed(step)
    ensures ranges == PosMap(step)
  {
    ranges := [];
    var i := 0;
    match step {
      case AddColumn(positions, cells) =>
        while i < |positions|
          invariant 0 <= i <= |positions| && |ranges| == i
          invariant forall k :: 0 <= k < i ==> ranges[k] == Range(positions[k], 0, Size(cells[k]))
        {
          ranges := ranges + [Range(positions[i], 0, Size(cells[i]))];
          i := i + 1;
        }
      case RemoveColumn(from, to) =>
        while i < |from|
          invariant 0 <= i <= |from| && |ranges| == i
          invariant forall k :: 0 <= k < i ==> ranges[k] == Range(from[k], to[k] - from[k], 0)
        {
          ranges := ranges + [Range(from[i], to[i] - from[i], 0)];
          i := i + 1;
        }
    }
  }

  // ---------------------------------------------------------------------
  // invert

  /** `invert`: resolve the first position, then walk the rows of its
      table, shifting each position by the sizes (`dPos`) of the cells of
      the rows before it. */
  method InvertStep(step: Step, doc: Node) returns (r: Result<Step>)
    requires doc.Elem?
    ensures r == Invert(step, doc)
  {
    var starts := Starts(step);
    if |starts| == 0 {
      return Err(Thrown("RangeError: Position undefined out of range"));
    }
    r := InvertFrom(step, Resolve(doc, starts[0]));
  }

  /** The rest of `invert`, from the resolved first position on. */
  method InvertFrom(step: Step, resolved: Result<ResolvedPos>) returns (r: Result<Step>)
    ensures r == InvertAt(step, resolved)
  {
    if resolved.Err? {
      return Err(resolved.error);
    }
    var first := resolved.value;
    if first.Depth() < 1 {
      return Err(Thrown("TypeError: table is undefined"));
    }
    var rows := Children(first.NodeAtDepth(first.Depth() - 1));
    match step {
      case AddColumn(positions, cells) =>
        r := InvertAdd(positions, cells, |rows|);
        if r.Ok? {
          assert r.value.from == seq(|rows|, i requires 0 <= i < |rows| => positions[i] + SizeOf(cells[..i]));
          assert r.value.to == seq(|rows|, i requires 0 <= i < |rows| => positions[i] + SizeOf(cells[..i + 1]));
        }
      case RemoveColumn(from, _) =>
        var index := first.IndexAt(first.Depth());
        r := InvertRemove(from, rows, index);
        if r.Ok? {
          var cells := r.value.cells;
          assert r.value.positions == seq(|rows|, i requires 0 <= i < |rows| => from[i] - SizeOf(cells[..i]));
        }
    }
  }

  /** The loop of `AddColumnStep.invert` over the table's `n` rows. */
  method InvertAdd(positions: seq<int>, cells: seq<Node>, n: nat) returns (r: Result<Step>)
    ensures |cells| < n ==> r == Err(Thrown("TypeError: cell is undefined"))
    ensures |cells| >= n && |positions| < n ==> r == PositionUndefined()
    ensures |cells| >= n && |positions| >= n ==>
              && r.Ok? && r.value.RemoveColumn? && |r.value.from| == n && |r.value.to| == n
              && forall i :: 0 <= i < n ==>
                   && r.value.from[i] == positions[i] + SizeOf(cells[..i])
                   && r.value.to[i] == positions[i] + SizeOf(cells[..i + 1])
  {
    var from: seq<int> := [];
    var to: seq<int> := [];
    var dPos := 0;
    var i := 0;
    var missing := false;
    while i < n
      invariant 0 <= i <= n && i <= |cells| && |from| == i && |to| == i
      invariant dPos == SizeOf(cells[..i])
      invariant missing <==> |positions| < i
      invariant forall k :: 0 <= k < i && k < |positions| ==>
                  from[k] == positions[k] + SizeOf(cells[..k]) && to[k] == positions[k] + SizeOf(cells[..k + 1])
    {
      if i >= |cells| {
        return Err(Thrown("TypeError: cell is undefined"));
      }
      var size := Size(cells[i]);
      SizeOfSnoc(cells, i);
      if i < |positions| {
        from := from + [positions[i] + dPos];
        to := to + [positions[i] + dPos + size];
      } else {
        missing := true;
        from := from + [0];
        to := to + [0];
      }
      dPos := dPos + size;
      i := i + 1;
    }
    if missing {
      return PositionUndefined();
    }
    return Ok(RemoveColumn(from, to));
  }

  /** The loop of `RemoveColumnStep.invert`: cell `index` of every row is
      put back, at its position shifted by the cells removed before it. */
  method InvertRemove(from: seq<int>, rows: seq<Node>, index: nat) returns (r: Result<Step>)
    ensures (exists i :: 0 <= i < |rows| && index >= |Children(rows[i])|) ==> r == Err(IndexError())
    ensures (forall i :: 0 <= i < |rows| ==> index < |Children(rows[i])|) && |from| < |rows| ==>
              r == PositionUndefined()
    ensures (forall i :: 0 <= i < |rows| ==> index < |Children(rows[i])|) && |from| >= |rows| ==>
              && r.Ok? && r.value.AddColumn?
              && r.value.cells == seq(|rows|, i requires 0 <= i < |rows| => Children(rows[i])[index])
              && |r.value.positions| == |rows|
              && forall i :: 0 <= i < |rows| ==> r.value.positions[i] == from[i] - SizeOf(r.value.cells[..i])
  {
    var positions: seq<int> := [];
    var cells: seq<Node> := [];
    var dPos := 0;
    var i := 0;
    var missing := false;
    while i < |rows|
      invariant 0 <= i <= |rows| && |positions| == i && |cells| == i
      invariant forall k :: 0 <= k < i ==> index < |Children(rows[k])| && cells[k] == Children(rows[k])[index]
      invariant dPos == SizeOf(cells)
      invariant missing <==> |from| < i
      invariant forall k :: 0 <= k < i && k < |from| ==> positions[k] == from[k] - SizeOf(cells[..k])
    {
      if i < |from| {
        positions := positions + [from[i] - dPos];
      } else {
        missing := true;
        positions := positions + [0];
      }
      if index >= |Children(rows[i])| {
        return Err(IndexError());
      }
      var cell := Children(rows[i])[index];
      SizeOfConcat(cells, [cell]);
      SizeOfSingle(cell);
      assert forall k :: 0 <= k <= i ==> (cells + [cell])[..k] == cells[..k];
      dPos := dPos + Size(cell);
      cells := cells + [cell];
      i := i + 1;
    }
    if missing {
      return PositionUndefined();
    }
    return Ok(AddColumn(positions, cells));
  }

  // ---------------------------------------------------------------------
  // map

  /** `RemoveColumnStep.map`: map each cell's start with bias 1 and its end
      with bias -1; give up as soon as a cell has collapsed. */
  method MapRemove(from: seq<int>, to: seq<int>, mapping: (int, int) -> int) returns (r: Option<Step>)
    requires |from| == |to|
    ensures r == Map(RemoveColumn(from, to), mapping)
  {
    var from': seq<int> := [];
    var to': seq<int> := [];
    var i := 0;
    while i < |from|
      invariant 0 <= i <= |from| && |from'| == i && |to'| == i
      invariant forall k :: 0 <= k < i ==>
                  && mapping(from[k], 1) < mapping(to[k], -1)
                  && from'[k] == mapping(from[k], 1) && to'[k] == mapping(to[k], -1)
    {
      var start, end := mapping(from[i], 1), mapping(to[i], -1);
      if end <= start {
        return None;
      }
      from' := from' + [start];
      to' := to' + [end];
      i := i + 1;
    }
    assert from' == seq(|from|, k requires 0 <= k < |from| => mapping(from[k], 1));
    assert to' == seq(|to|, k requires 0 <= k < |to| => mapping(to[k], -1));
    return Some(RemoveColumn(from', to'));
  }
}

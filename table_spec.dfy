/** The table helpers and the two column steps of the table schema, as
    functions on the immutable document model: `createTable`,
    `adjustColumns`, and `create`, `apply`, `posMap`, `invert` and `map` of
    `AddColumnStep` and `RemoveColumnStep`, with every failure the
    JavaScript code reports or throws. The loops of the source are methods
    in module TableSteps, each proved to compute the function here. */
module TableSpec {
  import opened Outcomes
  import opened DocModel
  import opened Contexts

  // ---------------------------------------------------------------------
  // adjustColumns, createTable

  /** `attrs.columns + diff`: `NaN` when there is no number to add to. */
  function ColumnsPlus(attrs: Attrs, diff: int): Value
  {
    if "columns" in attrs && attrs["columns"].Num? then Num(attrs["columns"].n + diff) else NaN
  }

  /** `adjustColumns`: a copy of the attributes with `columns` moved by
      `diff`; every other attribute is kept. */
  function AdjustColumns(attrs: Attrs, diff: int): (r: Attrs)
    ensures r.Keys == attrs.Keys + {"columns"}
    ensures forall k :: k in attrs && k != "columns" ==> r[k] == attrs[k]
    ensures "columns" in attrs && attrs["columns"].Num? ==> r["columns"] == Num(attrs["columns"].n + diff)
    ensures !("columns" in attrs && attrs["columns"].Num?) ==> r["columns"] == NaN
  {
    attrs["columns" := ColumnsPlus(attrs, diff)]
  }

  /** How many times a JavaScript `for (i = 0; i < n; i++)` loop runs. */
  function Count(n: int): nat
  {
    if n < 0 then 0 else n
  }

  /** The attributes `createTable` gives the table: a copy of the supplied
      ones, or none, with `columns` set. */
  function TableAttrs(attrs: Option<Attrs>, columns: int): Attrs
  {
    (if attrs.Some? then attrs.value else map[])["columns" := Num(columns)]
  }

  /** The row `createTable` repeats: `columns` copies of one cell. */
  function NewRow(rowType: string, cell: Node, columns: int): Node
  {
    Elem(rowType, map["columns" := Num(columns)], seq(Count(columns), _ => cell))
  }

  /** The table `createTable` builds: `rows` copies of one row. The cell
      is the one `createAndFill` makes for the cell type. */
  function NewTable(tableType: string, rowType: string, cell: Node, rows: int, columns: int,
                    attrs: Option<Attrs>): Node
  {
    Elem(tableType, TableAttrs(attrs, columns), seq(Count(rows), _ => NewRow(rowType, cell, columns)))
  }

  /** The table invariant the steps maintain: the table and every row carry
      the same numeric `columns`, and every row has that many children. */
  predicate Rectangular(table: Node)
  {
    && table.Elem? && "columns" in table.attrs && table.attrs["columns"].Num?
    && forall i :: 0 <= i < |table.content| ==>
         && table.content[i].Elem?
         && "columns" in table.content[i].attrs
         && table.content[i].attrs["columns"] == table.attrs["columns"]
         && |table.content[i].content| == table.attrs["columns"].n
  }

  // ---------------------------------------------------------------------
  // The steps

  /** `AddColumnStep(positions, cells)` and `RemoveColumnStep(from, to)`. */
  datatype Step =
    | AddColumn(positions: seq<int>, cells: seq<Node>)
    | RemoveColumn(from: seq<int>, to: seq<int>)

  /** A step whose arrays are as long as each other, as every constructor
      in the source makes them. */
  predicate WellFormed(step: Step)
  {
    match step
    case AddColumn(positions, cells) => |positions| == |cells|
    case RemoveColumn(from, to) => |from| == |to|
  }

  /** The positions `apply` resolves, one per row. */
  function Starts(step: Step): seq<int>
  {
    if step.AddColumn? then step.positions else step.from
  }

  function IndexError(): Error
  {
    Thrown("RangeError: Index out of range")
  }

  // ---------------------------------------------------------------------
  // create

  /** The offset of the boundary before cell `columnIndex` inside a row's
      content: the sum the inner loop of `create` adds up, which throws
      when the row has fewer cells. */
  function CellOffset(row: Node, columnIndex: int): Result<nat>
  {
    if columnIndex <= |Children(row)| then Ok(SizeOf(Children(row)[..Count(columnIndex)]))
    else Err(IndexError())
  }

  /** The node `create` walks: `doc.nodeAt(tablePos)`, which throws outside
      the document; its rows are its children. */
  function TableAt(doc: Node, tablePos: int): Result<Node>
    requires doc.Elem?
  {
    if !(0 <= tablePos <= SizeOf(doc.content)) then Err(Thrown("RangeError: Position outside of fragment"))
    else match NodeAt(doc, tablePos)
      case None => Err(Thrown("TypeError: table is null"))
      case Some(table) => Ok(table)
  }

  /** `AddColumnStep.create`: for every row, the position before its cell
      `columnIndex`, `tablePos + 2 + rowOff` plus the sizes of the cells
      before it; the same cell for every row. */
  function CreateAdd(doc: Node, tablePos: int, columnIndex: int, cell: Node): Result<Step>
    requires doc.Elem?
  {
    match TableAt(doc, tablePos)
    case Err(e) => Err(e)
    case Ok(table) => AddAt(Children(table), tablePos, columnIndex, cell)
  }

  /** The walk of `AddColumnStep.create` over the rows of the table after
      `tablePos`. */
  function AddAt(rows: seq<Node>, tablePos: int, columnIndex: int, cell: Node): Result<Step>
  {
    if exists i :: 0 <= i < |rows| && columnIndex > |Children(rows[i])| then Err(IndexError())
    else
      Ok(AddColumn(CellStarts(rows, tablePos, columnIndex, |rows|), seq(|rows|, _ => cell)))
  }

  /** The positions before cell `columnIndex` of the first `n` rows. */
  function CellStarts(rows: seq<Node>, tablePos: int, columnIndex: int, n: nat): (r: seq<int>)
    requires n <= |rows| && forall k :: 0 <= k < n ==> columnIndex <= |Children(rows[k])|
    ensures |r| == n
  {
    seq(n, k requires 0 <= k < n => RowCellPos(rows, tablePos, k, columnIndex))
  }

  /** `row.child(columnIndex)` exists. */
  predicate HasCell(row: Node, columnIndex: int)
  {
    0 <= columnIndex < |Children(row)|
  }

  /** The positions after cell `columnIndex` of the first `n` rows. */
  function CellEnds(rows: seq<Node>, tablePos: int, columnIndex: int, n: nat): (r: seq<int>)
    requires n <= |rows| && forall k :: 0 <= k < n ==> HasCell(rows[k], columnIndex)
    ensures |r| == n
  {
    seq(n, k requires 0 <= k < n =>
      assert HasCell(rows[k], columnIndex);
      RowCellPos(rows, tablePos, k, columnIndex) + Size(Children(rows[k])[columnIndex]))
  }

  /** The position before cell `columnIndex` of row `i` of a table after
      `tablePos`: past the table's and the row's opening tokens, the rows
      before it and the cells before it. */
  function RowCellPos(rows: seq<Node>, tablePos: int, i: int, columnIndex: int): int
    requires 0 <= i < |rows| && columnIndex <= |Children(rows[i])|
  {
    tablePos + 2 + SizeOf(rows[..i]) + SizeOf(Children(rows[i])[..Count(columnIndex)])
  }

  /** `RemoveColumnStep.create`: the same positions, each paired with the
      end of the cell at `columnIndex`, which must exist in every row. */
  function CreateRemove(doc: Node, tablePos: int, columnIndex: int): Result<Step>
    requires doc.Elem?
  {
    match TableAt(doc, tablePos)
    case Err(e) => Err(e)
    case Ok(table) => RemoveAt(Children(table), tablePos, columnIndex)
  }

  /** The walk of `RemoveColumnStep.create` over the rows of the table
      after `tablePos`. */
  function RemoveAt(rows: seq<Node>, tablePos: int, columnIndex: int): Result<Step>
  {
    if exists i :: 0 <= i < |rows| && !HasCell(rows[i], columnIndex) then Err(IndexError())
    else
      Ok(RemoveColumn(CellStarts(rows, tablePos, columnIndex, |rows|),
                      CellEnds(rows, tablePos, columnIndex, |rows|)))
  }

  // ---------------------------------------------------------------------
  // apply

  /** What the first loop of `apply` fixes at its first row: the table,
      the position before it, the column index, and the depth of the table
      in the document. */
  datatype Anchor = Anchor(table: Node, tablePos: int, index: nat, tableDepth: nat)

  /** The check of one position in the first loop of `apply`: it must
      resolve, lie at depth two or more, and sit in row `i` of its table;
      a removal also needs the cell after it to end at `to[i]`. */
  function CheckPos(step: Step, doc: Node, i: nat): (r: Result<ResolvedPos>)
    requires doc.Elem? && i < |Starts(step)|
    ensures r.Ok? ==> r == Resolve(doc, Starts(step)[i])
    ensures r.Ok? ==> r.value.Depth() >= 2 && r.value.IndexAt(r.value.Depth() - 1) == i
    ensures r.Ok? && step.RemoveColumn? ==>
              && i < |step.to| && r.value.NodeAfter().Some?
              && Starts(step)[i] + Size(r.value.NodeAfter().value) == step.to[i]
  {
    var p := Starts(step)[i];
    match Resolve(doc, p)
    case Err(e) => Err(e)
    case Ok(rp) =>
      if rp.Depth() < 2 || rp.IndexAt(rp.Depth() - 1) != i then
        Err(StepFailed(if step.AddColumn? then "Invalid cell insert position" else "Invalid cell delete positions"))
      else if step.RemoveColumn?
           && (rp.NodeAfter().None? || i >= |step.to| || p + Size(rp.NodeAfter().value) != step.to[i]) then
        Err(StepFailed("Invalid cell delete positions"))
      else Ok(rp)
  }

  /** The checks of every position, in row order. */
  function Checks(step: Step, doc: Node): (r: seq<Result<ResolvedPos>>)
    requires doc.Elem?
    ensures |r| == |Starts(step)| && Deep(r)
  {
    seq(|Starts(step)|, i requires 0 <= i < |Starts(step)| => CheckPos(step, doc, i))
  }

  /** Every position that passed its check lies at depth two or more. */
  predicate Deep(checks: seq<Result<ResolvedPos>>)
  {
    forall k :: 0 <= k < |checks| && checks[k].Ok? ==> |checks[k].value.path| >= 3
  }

  /** A later row's resolved position is before the anchor's table and at
      the anchor's column index. */
  predicate SameColumn(rp: ResolvedPos, a: Anchor)
    requires |rp.path| >= 3
  {
    rp.Before(rp.Depth() - 1) == a.tablePos && rp.IndexAt(rp.Depth()) == a.index
  }

  /** The first loop of `apply` from row `i` on, over the checks of the
      positions: the first row fixes the anchor and must come from a table
      with one row per position; every later row must agree on the table
      and the column index. The first failure in row order is reported. */
  function CheckRows(step: Step, checks: seq<Result<ResolvedPos>>, i: nat, anchor: Option<Anchor>)
    : (r: Result<Option<Anchor>>)
    requires Deep(checks) && i <= |checks|
    ensures anchor.None? && r.Ok? && r.value.Some? ==> i < |checks|
    decreases |checks| - i
  {
    if i == |checks| then Ok(anchor)
    else
      match checks[i]
      case Err(e) => Err(e)
      case Ok(rp) =>
        var d := rp.Depth();
        match anchor
        case None =>
          var table := rp.NodeAtDepth(d - 1);
          if |Children(table)| != |checks| then Err(StepFailed("Mismatch in number of rows"))
          else CheckRows(step, checks, i + 1, Some(Anchor(table, rp.Before(d - 1), rp.IndexAt(d), d - 1)))
        case Some(a) =>
          if !SameColumn(rp, a) then
            Err(StepFailed(if step.AddColumn? then "Column insert positions not consistent"
                           else "Column delete positions not consistent"))
          else CheckRows(step, checks, i + 1, anchor)
  }

  /** The children of a row after the inner loop of `AddColumnStep.apply`,
      up to child `j`: the new cell first when the index is 0, then each
      child, followed by the new cell after child `index - 1`. */
  function InsertedUpTo(cs: seq<Node>, index: nat, cell: Node, j: nat): seq<Node>
    requires j <= |cs|
  {
    if j == 0 then (if index == 0 then [cell] else [])
    else InsertedUpTo(cs, index, cell, j - 1) + [cs[j - 1]] + (if j == index then [cell] else [])
  }

  /** The children of a row after the inner loop of
      `RemoveColumnStep.apply`, up to child `j`: every child but `index`. */
  function RemovedUpTo(cs: seq<Node>, index: nat, j: nat): seq<Node>
    requires j <= |cs|
  {
    if j == 0 then []
    else RemovedUpTo(cs, index, j - 1) + (if j - 1 != index then [cs[j - 1]] else [])
  }

  /** The attributes of a node; text nodes have none. */
  function AttrsOf(n: Node): Attrs
  {
    if n.Text? then map[] else n.attrs
  }

  function TypeOf(n: Node): string
  {
    if n.Text? then "text" else n.nodeType
  }

  /** A row rebuilt by `AddColumnStep.apply`. */
  function AddedRow(row: Node, index: nat, cell: Node): Node
  {
    Elem(TypeOf(row), AdjustColumns(AttrsOf(row), 1),
         InsertedUpTo(Children(row), index, cell, |Children(row)|))
  }

  /** A row rebuilt by `RemoveColumnStep.apply`. */
  function RemovedRow(row: Node, index: nat): Node
  {
    Elem(TypeOf(row), AdjustColumns(AttrsOf(row), -1), RemovedUpTo(Children(row), index, |Children(row)|))
  }

  /** The table `AddColumnStep.apply` builds: cell `i` goes into row `i`. */
  function AddedTable(table: Node, index: nat, cells: seq<Node>): Node
    requires |cells| >= |Children(table)|
  {
    Elem(TypeOf(table), AdjustColumns(AttrsOf(table), 1),
         seq(|Children(table)|, i requires 0 <= i < |Children(table)| =>
           AddedRow(Children(table)[i], index, cells[i])))
  }

  /** The table `RemoveColumnStep.apply` builds. */
  function RemovedTable(table: Node, index: nat): Node
  {
    Elem(TypeOf(table), AdjustColumns(AttrsOf(table), -1),
         seq(|Children(table)|, i requires 0 <= i < |Children(table)| =>
           RemovedRow(Children(table)[i], index)))
  }

  /** `StepResult.fromReplace(doc, tablePos, tablePos + table.nodeSize,
      slice)` with a closed slice holding one node: the table the first
      position resolved into is swapped for `table`, inside the same
      ancestors. */
  function SwapTable(doc: Node, first: int, a: Anchor, table: Node): Node
    requires doc.Elem?
  {
    Plug(PathCtx(doc, first, a.tableDepth), table)
  }

  /** `apply`: run the checks, then rebuild the table. With no positions at
      all the second loop reads the child count of a missing table and
      throws; a cell missing from `cells` makes building the row throw. */
  function Apply(step: Step, doc: Node): Result<Node>
    requires doc.Elem?
  {
    ApplyWith(step, doc, CheckRows(step, Checks(step, doc), 0, None))
  }

  /** The second half of `apply`, given the outcome of its check loop. */
  function ApplyWith(step: Step, doc: Node, checked: Result<Option<Anchor>>): Result<Node>
    requires doc.Elem? && (checked.Ok? && checked.value.Some? ==> |Starts(step)| >= 1)
  {
    match checked
    case Err(e) => Err(e)
    case Ok(None) => Err(Thrown("TypeError: table is null"))
    case Ok(Some(a)) =>
      match step
      case AddColumn(positions, cells) =>
        if |cells| < |Children(a.table)| then Err(Thrown("TypeError: cell is undefined"))
        else Ok(SwapTable(doc, positions[0], a, AddedTable(a.table, a.index, cells)))
      case RemoveColumn(from, _) =>
        Ok(SwapTable(doc, from[0], a, RemovedTable(a.table, a.index)))
  }

  // ---------------------------------------------------------------------
  // posMap

  /** One range of a position map: `oldSize` positions from `start` on are
      replaced by `newSize` positions. */
  datatype Range = Range(start: int, oldSize: int, newSize: int)

  /** `posMap`: an insertion of each new cell, or a deletion of each
      removed cell. */
  function PosMap(step: Step): seq<Range>
    requires WellFormed(step)
  {
    match step
    case AddColumn(positions, cells) =>
      seq(|positions|, i requires 0 <= i < |positions| => Range(positions[i], 0, Size(cells[i])))
    case RemoveColumn(from, to) =>
      seq(|from|, i requires 0 <= i < |from| => Range(from[i], to[i] - from[i], 0))
  }

  // ---------------------------------------------------------------------
  // invert

  /** `invert(doc)`: the inverse of `step`, read off the document the step
      was applied to. The first position's parent table says how many rows
      there are. An addition is undone by deleting each inserted cell at
      its position after the cells inserted in earlier rows; a removal is
      undone by inserting the very cells it removes, each at its position
      after the cells removed from earlier rows. */
  function Invert(step: Step, doc: Node): Result<Step>
    requires doc.Elem?
  {
    var starts := Starts(step);
    if |starts| == 0 then Err(Thrown("RangeError: Position undefined out of range"))
    else InvertAt(step, Resolve(doc, starts[0]))
  }

  /** The rest of `invert`, once the first position is resolved. */
  function InvertAt(step: Step, resolved: Result<ResolvedPos>): Result<Step>
  {
    var starts := Starts(step);
    match resolved
    case Err(e) => Err(e)
    case Ok(first) =>
      if first.Depth() < 1 then Err(Thrown("TypeError: table is undefined"))
      else
        var rows := Children(first.NodeAtDepth(first.Depth() - 1));
        match step
        case AddColumn(positions, cells) =>
          if |cells| < |rows| then Err(Thrown("TypeError: cell is undefined"))
          else if |rows| > |positions| then PositionUndefined()
          else
            Ok(RemoveColumn(
              seq(|rows|, i requires 0 <= i < |rows| => positions[i] + SizeOf(cells[..i])),
              seq(|rows|, i requires 0 <= i < |rows| => positions[i] + SizeOf(cells[..i + 1]))))
        case RemoveColumn(from, _) =>
          var index := first.IndexAt(first.Depth());
          if exists i :: 0 <= i < |rows| && index >= |Children(rows[i])| then Err(IndexError())
          else if |rows| > |from| then PositionUndefined()
          else
            var cells := seq(|rows|, i requires 0 <= i < |rows| => Children(rows[i])[index]);
            Ok(AddColumn(seq(|rows|, i requires 0 <= i < |rows| => from[i] - SizeOf(cells[..i])), cells))
  }

  /** Reading a position past the end of the step's array yields
      `undefined`, and the inverse built from it holds `NaN`, which no
      later `resolve` accepts; the model reports it when inverting. */
  function PositionUndefined(): Result<Step>
  {
    Err(Thrown("TypeError: position is undefined"))
  }

  // ---------------------------------------------------------------------
  // map

  /** `map(mapping)`. `mapping(pos, bias)` is the position map of the edit
      the step is moved over. An addition keeps its cells and maps every
      position; a removal maps its starts with bias 1 and its ends with
      bias -1, and is dropped when any cell it deletes has collapsed. */
  function Map(step: Step, mapping: (int, int) -> int): Option<Step>
    requires WellFormed(step)
  {
    match step
    case AddColumn(positions, cells) =>
      Some(AddColumn(seq(|positions|, i requires 0 <= i < |positions| => mapping(positions[i], 1)), cells))
    case RemoveColumn(from, to) =>
      if exists i :: 0 <= i < |from| && mapping(to[i], -1) <= mapping(from[i], 1) then None
      else
        Some(RemoveColumn(seq(|from|, i requires 0 <= i < |from| => mapping(from[i], 1)),
                          seq(|to|, i requires 0 <= i < |to| => mapping(to[i], -1))))
  }
}

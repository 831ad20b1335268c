/** What the table helpers and the column steps promise beyond the round
    trip: `createTable` builds a rectangular table, both steps keep a
    rectangular table rectangular, the position map of a step accounts for
    exactly the size `apply` adds or removes, and `map` behaves as a
    mapping of positions should. */
module TableLemmas {
  import opened Outcomes
  import opened DocModel
  import opened Contexts
  import opened TableSites
  import opened TableSpec
  import opened ApplyProofs
  import opened InvertProofs

  // ---------------------------------------------------------------------
  // createTable

  /** `createTable` makes `rows` rows of `columns` copies of the cell; the
      table keeps every supplied attribute but `columns`, which it and
      every row set to `columns`. */
  lemma NewTableShape(tableType: string, rowType: string, cell: Node, rows: int, columns: int,
                      attrs: Option<Attrs>)
    requires columns >= 0
    ensures var t := NewTable(tableType, rowType, cell, rows, columns, attrs);
            && Rectangular(t) && t.nodeType == tableType
            && t.attrs["columns"] == Num(columns)
            && (attrs.Some? ==> forall k :: k in attrs.value && k != "columns" ==> k in t.attrs && t.attrs[k] == attrs.value[k])
            && |t.content| == Count(rows)
            && forall i, j :: 0 <= i < |t.content| && 0 <= j < |t.content[i].content| ==>
                 t.content[i].nodeType == rowType && t.content[i].content[j] == cell
  {
  }

  // ---------------------------------------------------------------------
  // Rectangularity

  /** The `columns` value of a rectangular table. */
  function Columns(table: Node): int
    requires Rectangular(table)
  {
    table.attrs["columns"].n
  }

  /** Adding a column at an index within the rows of a rectangular table
      gives a rectangular table one column wider. */
  lemma AddedTableRectangular(table: Node, index: nat, cells: seq<Node>)
    requires Rectangular(table) && index <= Columns(table) && |cells| >= |table.content|
    ensures Rectangular(AddedTable(table, index, cells))
    ensures Columns(AddedTable(table, index, cells)) == Columns(table) + 1
  {
    var added := AddedTable(table, index, cells);
    forall i | 0 <= i < |added.content|
      ensures && added.content[i].Elem? && "columns" in added.content[i].attrs
              && added.content[i].attrs["columns"] == added.attrs["columns"]
              && |added.content[i].content| == added.attrs["columns"].n
    {
      AddedRowShape(table.content[i], index, cells[i]);
    }
  }

  /** Removing a column that every row of a rectangular table has gives a
      rectangular table one column narrower. */
  lemma RemovedTableRectangular(table: Node, index: nat)
    requires Rectangular(table) && index < Columns(table)
    ensures Rectangular(RemovedTable(table, index))
    ensures Columns(RemovedTable(table, index)) == Columns(table) - 1
  {
    var removed := RemovedTable(table, index);
    forall i | 0 <= i < |removed.content|
      ensures && removed.content[i].Elem? && "columns" in removed.content[i].attrs
              && removed.content[i].attrs["columns"] == removed.attrs["columns"]
              && |removed.content[i].content| == removed.attrs["columns"].n
    {
      RemovedRowShape(table.content[i], index);
    }
  }

  /** A successful `apply` on a rectangular table whose rows hold
      elements swaps in a rectangular table, one column wider or
      narrower, in the same place. */
  lemma ApplyKeepsRectangular(step: Step, doc: Node, a: Anchor)
    requires doc.Elem? && Apply(step, doc).Ok?
    requires CheckRows(step, Checks(step, doc), 0, None) == Ok(Some(a))
    requires Rectangular(a.table) && RowsOfElements(a.table)
    ensures var ctx := PathCtx(doc, Starts(step)[0], a.tableDepth);
            step.AddColumn? ==>
              && |step.cells| >= |a.table.content|
              && Apply(step, doc) == Ok(Plug(ctx, AddedTable(a.table, a.index, step.cells)))
              && Rectangular(AddedTable(a.table, a.index, step.cells))
              && Columns(AddedTable(a.table, a.index, step.cells)) == Columns(a.table) + 1
    ensures var ctx := PathCtx(doc, Starts(step)[0], a.tableDepth);
            step.RemoveColumn? ==>
              && Apply(step, doc) == Ok(Plug(ctx, RemovedTable(a.table, a.index)))
              && Rectangular(RemovedTable(a.table, a.index))
              && Columns(RemovedTable(a.table, a.index)) == Columns(a.table) - 1
  {
    var ctx := PathCtx(doc, Starts(step)[0], a.tableDepth);
    ApplySite(step, doc, a, ctx);
    ApplyChecked(step, doc, a, ctx);
    assert SiteOf(step, ctx, a.table, a.index, 0);
    if step.AddColumn? {
      AddedTableRectangular(a.table, a.index, step.cells);
    } else {
      RemovedTableRectangular(a.table, a.index);
    }
  }

  // ---------------------------------------------------------------------
  // posMap accounts for the size change

  /** The net number of positions a list of ranges adds. */
  function Growth(ranges: seq<Range>): int
  {
    if ranges == [] then 0
    else Growth(ranges[..|ranges| - 1]) + ranges[|ranges| - 1].newSize - ranges[|ranges| - 1].oldSize
  }

  /** Swapping one subtree for another changes the size of the document by
      the difference of their sizes. */
  lemma {:induction false} PlugSize(ctx: seq<Frame>, t: Node, t': Node)
    ensures Size(Plug(ctx, t')) + Size(t) == Size(Plug(ctx, t)) + Size(t')
    decreases |ctx|
  {
    if ctx != [] {
      var init, last := ctx[..|ctx| - 1], ctx[|ctx| - 1];
      FillSize(last, t);
      FillSize(last, t');
      PlugSize(init, Fill(last, t), Fill(last, t'));
    }
  }

  /** The ranges of `AddColumnStep.posMap` add up to the sizes of the
      cells. */
  lemma {:induction false} GrowthAdd(step: Step, n: nat)
    requires step.AddColumn? && WellFormed(step) && n <= |step.positions|
    ensures Growth(PosMap(step)[..n]) == SizeOf(step.cells[..n])
  {
    if n > 0 {
      GrowthAdd(step, n - 1);
      assert PosMap(step)[..n][..n - 1] == PosMap(step)[..n - 1];
      SizeOfSnoc(step.cells, n - 1);
    }
  }

  /** The ranges of `RemoveColumnStep.posMap` take away the sizes of the
      cells between `from[i]` and `to[i]`. */
  lemma {:induction false} GrowthRemove(step: Step, column: seq<Node>, n: nat)
    requires step.RemoveColumn? && WellFormed(step) && n <= |step.from| && |column| == |step.from|
    requires forall i :: 0 <= i < |step.from| ==> step.to[i] - step.from[i] == Size(column[i])
    ensures Growth(PosMap(step)[..n]) + SizeOf(column[..n]) == 0
  {
    if n > 0 {
      GrowthRemove(step, column, n - 1);
      assert PosMap(step)[..n][..n - 1] == PosMap(step)[..n - 1];
      SizeOfSnoc(column, n - 1);
    }
  }

  /** A successful `apply` grows the document by exactly what the step's
      position map says, when the table's rows hold elements. */
  lemma ApplySizeMatchesPosMap(step: Step, doc: Node, a: Anchor)
    requires doc.Elem? && WellFormed(step) && Apply(step, doc).Ok?
    requires CheckRows(step, Checks(step, doc), 0, None) == Ok(Some(a))
    requires RowsOfElements(a.table)
    ensures Size(Apply(step, doc).value) == Size(doc) + Growth(PosMap(step))
  {
    var ctx := PathCtx(doc, Starts(step)[0], a.tableDepth);
    ApplySite(step, doc, a, ctx);
    ApplyChecked(step, doc, a, ctx);
    assert PosMap(step)[..|a.table.content|] == PosMap(step);
    if step.AddColumn? {
      AnchorReaches(step, ctx, a);
      AddedSize(step, a.table, a.index, ctx);
    } else {
      AnchorCovers(step, ctx, a);
      RemovedSize(step, a.table, a.index, ctx);
    }
  }

  /** The size of the document after adding the column, from its parts. */
  lemma AddedSize(step: Step, table: Node, j: nat, ctx: seq<Frame>)
    requires step.AddColumn? && WellFormed(step) && Reaches(table, j)
    requires |table.content| == |step.positions|
    ensures var n := |table.content|;
            Size(Plug(ctx, AddedTable(table, j, step.cells))) == Size(Plug(ctx, table)) + Growth(PosMap(step)[..n])
  {
    var n := |table.content|;
    var added := AddedTable(table, j, step.cells);
    AddedPrefix(table, j, step.cells, n);
    assert table.content[..n] == table.content;
    assert added.content[..n] == added.content;
    assert step.cells[..n] == step.cells;
    PlugSize(ctx, table, added);
    GrowthAdd(step, n);
  }

  /** The size of the document after removing the column, from its parts. */
  lemma RemovedSize(step: Step, table: Node, j: nat, ctx: seq<Frame>)
    requires step.RemoveColumn? && WellFormed(step) && Covers(table, j)
    requires |table.content| == |step.from|
    requires forall i :: 0 <= i < |step.from| ==> SiteOf(step, ctx, table, j, i)
    requires RowsOfElements(table)
    ensures var n := |table.content|;
            Size(Plug(ctx, RemovedTable(table, j))) == Size(Plug(ctx, table)) + Growth(PosMap(step)[..n])
  {
    var n := |table.content|;
    var removed := RemovedTable(table, j);
    var column := Column(table, j);
    RemovedPrefix(table, j, removed, column, n);
    assert table.content[..n] == table.content;
    assert removed.content[..n] == removed.content;
    assert column[..n] == column;
    PlugSize(ctx, table, removed);
    forall i | 0 <= i < n
      ensures step.to[i] - step.from[i] == Size(column[i])
    {
      assert SiteOf(step, ctx, table, j, i);
    }
    GrowthRemove(step, column, n);
  }

  // ---------------------------------------------------------------------
  // map

  /** Mapping through the identity keeps an addition, and keeps a removal
      exactly when none of its cells is empty. */
  lemma MapIdentity(step: Step)
    requires WellFormed(step)
    ensures step.AddColumn? ==> Map(step, (p, bias) => p) == Some(step)
    ensures step.RemoveColumn? ==>
              (Map(step, (p, bias) => p) == Some(step)
               <==> forall i :: 0 <= i < |step.from| ==> step.from[i] < step.to[i])
    ensures step.RemoveColumn? && Map(step, (p, bias) => p) != Some(step) ==> Map(step, (p, bias) => p) == None
  {
    if step.AddColumn? {
      assert Map(step, (p, bias) => p).value.positions == step.positions;
    }
    if step.RemoveColumn? && forall i :: 0 <= i < |step.from| ==> step.from[i] < step.to[i] {
      assert Map(step, (p, bias) => p).value.from == step.from;
      assert Map(step, (p, bias) => p).value.to == step.to;
    }
  }

  /** A mapped step has the shape of the original: as many positions, the
      same cells, and for a removal every mapped cell non-empty. */
  lemma MapShape(step: Step, mapping: (int, int) -> int)
    requires WellFormed(step)
    ensures Map(step, mapping).Some? ==> WellFormed(Map(step, mapping).value)
    ensures step.AddColumn? ==>
              && Map(step, mapping).Some? && Map(step, mapping).value.AddColumn?
              && Map(step, mapping).value.cells == step.cells
              && |Map(step, mapping).value.positions| == |step.positions|
              && forall i :: 0 <= i < |step.positions| ==>
                   Map(step, mapping).value.positions[i] == mapping(step.positions[i], 1)
    ensures step.RemoveColumn? && Map(step, mapping).Some? ==>
              && Map(step, mapping).value.RemoveColumn?
              && |Map(step, mapping).value.from| == |step.from|
              && forall i :: 0 <= i < |step.from| ==>
                   && Map(step, mapping).value.from[i] == mapping(step.from[i], 1)
                   && Map(step, mapping).value.to[i] == mapping(step.to[i], -1)
                   && Map(step, mapping).value.from[i] < Map(step, mapping).value.to[i]
    ensures step.RemoveColumn? && Map(step, mapping).None? ==>
              exists i :: 0 <= i < |step.from| && mapping(step.to[i], -1) <= mapping(step.from[i], 1)
  {
  }

  /** Mapping through two edits one after the other is mapping through
      their composition, when neither drops the step. */
  lemma MapCompose(step: Step, f: (int, int) -> int, g: (int, int) -> int)
    requires WellFormed(step) && Map(step, f).Some?
    requires WellFormed(Map(step, f).value) && Map(Map(step, f).value, g).Some?
    ensures Map(step, (p, bias) => g(f(p, bias), bias)) == Map(Map(step, f).value, g)
  {
    var h := (p, bias) => g(f(p, bias), bias);
    var once := Map(step, f).value;
    var twice := Map(once, g).value;
    match step {
      case AddColumn(positions, cells) =>
        assert Map(step, h).value.positions == twice.positions;
      case RemoveColumn(from, to) =>
        assert !exists i :: 0 <= i < |from| && h(to[i], -1) <= h(from[i], 1) by {
          forall i | 0 <= i < |from|
            ensures h(from[i], 1) < h(to[i], -1)
          {
            assert once.from[i] == f(from[i], 1) && once.to[i] == f(to[i], -1);
            assert g(once.from[i], 1) < g(once.to[i], -1);
          }
        }
        assert Map(step, h).value.from == twice.from;
        assert Map(step, h).value.to == twice.to;
    }
  }
}

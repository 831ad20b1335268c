/** What `AddColumnStep.create` and `RemoveColumnStep.create` promise
    together with `apply`: a step created for a table whose rows all reach
    the column applies to the very document it was created from, and
    swaps that table, where it sits, for one with the column added or
    removed. */
module CreateProofs {
  import opened Outcomes
  import opened DocModel
  import opened Contexts
  import opened TableSites
  import opened TableSpec
  import opened ApplyProofs
  import opened TableLemmas

  /** Row `i`'s created position is boundary `columnIndex` of that row,
      measured from the start of the document. */
  lemma RowCellPosIsSite(ctx: seq<Frame>, table: Node, tablePos: int, i: nat, columnIndex: nat)
    requires RowsOfElements(table) && i < |table.content| && columnIndex <= |table.content[i].content|
    requires Inner(ctx) == tablePos + 1
    ensures RowCellPos(Children(table), tablePos, i, columnIndex) == Inner(ctx) + CellPos(table, i, columnIndex)
  {
    assert Children(table) == table.content && Children(table.content[i]) == table.content[i].content;
  }

  /** An addition created at `tablePos` for a table with at least one row,
      every row reaching `columnIndex`, applies to the same document: the
      table, found in the frames of `nodeAt`, becomes the table with `cell`
      inserted at `columnIndex` of every row, and a rectangular table stays
      rectangular with one column more. */
  lemma CreateAddApplies(doc: Node, tablePos: int, columnIndex: nat, cell: Node, table: Node)
    requires doc.Elem? && TableAt(doc, tablePos) == Ok(table)
    requires RowsOfElements(table) && |table.content| >= 1
    requires forall i :: 0 <= i < |table.content| ==> columnIndex <= |table.content[i].content|
    ensures CreateAdd(doc, tablePos, columnIndex, cell).Ok?
    ensures var ctx := FramesTo(doc, tablePos);
            var added := AddedTable(table, columnIndex, seq(|table.content|, _ => cell));
            && Plug(ctx, table) == doc && Inner(ctx) == tablePos + 1
            && Apply(CreateAdd(doc, tablePos, columnIndex, cell).value, doc) == Ok(Plug(ctx, added))
            && (Rectangular(table) ==> Rectangular(added) && Columns(added) == Columns(table) + 1)
  {
    var ctx := FramesTo(doc, tablePos);
    assert NodeAt(doc, tablePos) == Some(table);
    var step := CreatedAddSites(doc, tablePos, columnIndex, cell, table, ctx);
    ApplyOnSite(step, doc, ctx, table, columnIndex);
    if Rectangular(table) {
      assert |table.content[0].content| == Columns(table);
      AddedTableRectangular(table, columnIndex, step.cells);
    }
  }

  /** The addition `create` builds for such a table: one copy of `cell`
      and one position per row, each at boundary `columnIndex` of its row. */
  lemma CreatedAddSites(doc: Node, tablePos: int, columnIndex: nat, cell: Node, table: Node, ctx: seq<Frame>)
    returns (step: Step)
    requires doc.Elem? && TableAt(doc, tablePos) == Ok(table) && Inner(ctx) == tablePos + 1
    requires RowsOfElements(table)
    requires forall i :: 0 <= i < |table.content| ==> columnIndex <= |table.content[i].content|
    ensures CreateAdd(doc, tablePos, columnIndex, cell) == Ok(step) && step.AddColumn?
    ensures step.cells == seq(|table.content|, _ => cell) && |Starts(step)| == |table.content|
    ensures forall i :: 0 <= i < |Starts(step)| ==> Starts(step)[i] == Inner(ctx) + CellPos(table, i, columnIndex)
  {
    var rows := Children(table);
    assert rows == table.content;
    assert !exists i :: 0 <= i < |rows| && columnIndex > |Children(rows[i])|;
    step := AddColumn(CellStarts(rows, tablePos, columnIndex, |rows|), seq(|rows|, _ => cell));
    assert Starts(step) == step.positions;
    forall i | 0 <= i < |Starts(step)|
      ensures Starts(step)[i] == Inner(ctx) + CellPos(table, i, columnIndex)
    {
      RowCellPosIsSite(ctx, table, tablePos, i, columnIndex);
    }
  }

  /** A removal created at `tablePos` for a table with at least one row,
      every row holding a cell at `columnIndex`, applies to the same
      document: the table, found in the frames of `nodeAt`, becomes the
      table without cell `columnIndex` in every row, and a rectangular
      table stays rectangular with one column less. */
  lemma CreateRemoveApplies(doc: Node, tablePos: int, columnIndex: nat, table: Node)
    requires doc.Elem? && TableAt(doc, tablePos) == Ok(table)
    requires RowsOfElements(table) && |table.content| >= 1
    requires forall i :: 0 <= i < |table.content| ==> columnIndex < |table.content[i].content|
    ensures CreateRemove(doc, tablePos, columnIndex).Ok?
    ensures var ctx := FramesTo(doc, tablePos);
            var removed := RemovedTable(table, columnIndex);
            && Plug(ctx, table) == doc && Inner(ctx) == tablePos + 1
            && Apply(CreateRemove(doc, tablePos, columnIndex).value, doc) == Ok(Plug(ctx, removed))
            && (Rectangular(table) ==> Rectangular(removed) && Columns(removed) == Columns(table) - 1)
  {
    var ctx := FramesTo(doc, tablePos);
    assert NodeAt(doc, tablePos) == Some(table);
    var step := CreatedRemoveSites(doc, tablePos, columnIndex, table, ctx);
    ApplyOnSite(step, doc, ctx, table, columnIndex);
    if Rectangular(table) {
      assert |table.content[0].content| == Columns(table);
      RemovedTableRectangular(table, columnIndex);
    }
  }

  /** The removal `create` builds for such a table: one range per row,
      from boundary `columnIndex` of the row to the end of the cell there. */
  lemma CreatedRemoveSites(doc: Node, tablePos: int, columnIndex: nat, table: Node, ctx: seq<Frame>)
    returns (step: Step)
    requires doc.Elem? && TableAt(doc, tablePos) == Ok(table) && Inner(ctx) == tablePos + 1
    requires RowsOfElements(table)
    requires forall i :: 0 <= i < |table.content| ==> columnIndex < |table.content[i].content|
    ensures CreateRemove(doc, tablePos, columnIndex) == Ok(step) && step.RemoveColumn?
    ensures |Starts(step)| == |step.to| == |table.content|
    ensures forall i :: 0 <= i < |Starts(step)| ==>
              && Starts(step)[i] == Inner(ctx) + CellPos(table, i, columnIndex)
              && step.to[i] == step.from[i] + Size(table.content[i].content[columnIndex])
  {
    var rows := Children(table);
    assert rows == table.content;
    assert !exists i :: 0 <= i < |rows| && !HasCell(rows[i], columnIndex);
    step := RemoveColumn(CellStarts(rows, tablePos, columnIndex, |rows|),
                         CellEnds(rows, tablePos, columnIndex, |rows|));
    assert Starts(step) == step.from;
    forall i | 0 <= i < |Starts(step)|
      ensures && Starts(step)[i] == Inner(ctx) + CellPos(table, i, columnIndex)
              && step.to[i] == step.from[i] + Size(table.content[i].content[columnIndex])
    {
      RowCellPosIsSite(ctx, table, tablePos, i, columnIndex);
    }
  }
}

/** The rebuilt rows and tables of the two column steps in closed form, and
    the round trip: applying the inverse of a step to the document the step
    produced gives back the document it started from. */
module InvertProofs {
  import opened Outcomes
  import opened DocModel
  import opened Contexts
  import opened TableSites
  import opened TableSpec
  import opened ApplyProofs

  // ---------------------------------------------------------------------
  // Rows

  /** The inner loop of `AddColumnStep.apply` inserts the cell before child
      `index` (after the last child when `index` is the child count), and
      inserts nothing when `index` is past the end. */
  lemma {:induction false} InsertedClosed(cs: seq<Node>, index: nat, cell: Node, j: nat)
    requires j <= |cs|
    ensures InsertedUpTo(cs, index, cell, j)
            == if j < index then cs[..j] else cs[..index] + [cell] + cs[index..j]
  {
    if j > 0 {
      InsertedClosed(cs, index, cell, j - 1);
      if j - 1 < index {
        assert cs[..j - 1] + [cs[j - 1]] == cs[..j];
        if j == index {
          assert cs[index..j] == [];
        }
      } else {
        assert cs[index..j - 1] + [cs[j - 1]] == cs[index..j];
      }
    }
  }

  /** The inner loop of `RemoveColumnStep.apply` keeps every child but
      `index`, in order. */
  lemma {:induction false} RemovedClosed(cs: seq<Node>, index: nat, j: nat)
    requires j <= |cs|
    ensures RemovedUpTo(cs, index, j) == if j <= index then cs[..j] else cs[..index] + cs[index + 1..j]
  {
    if j > 0 {
      RemovedClosed(cs, index, j - 1);
      if j - 1 < index {
        assert cs[..j - 1] + [cs[j - 1]] == cs[..j];
      } else if j - 1 == index {
        assert cs[index + 1..j] == [];
      } else {
        assert cs[index + 1..j - 1] + [cs[j - 1]] == cs[index + 1..j];
      }
    }
  }

  /** A row rebuilt by `AddColumnStep.apply` at an index within the row:
      its cells with the new one inserted at the index, `columns` one up. */
  lemma AddedRowShape(row: Node, index: nat, cell: Node)
    requires row.Elem? && index <= |row.content|
    ensures AddedRow(row, index, cell)
            == Elem(row.nodeType, AdjustColumns(row.attrs, 1),
                    row.content[..index] + [cell] + row.content[index..])
    ensures Size(AddedRow(row, index, cell)) == Size(row) + Size(cell)
  {
    var cs := row.content;
    InsertedClosed(cs, index, cell, |cs|);
    assert cs[index..|cs|] == cs[index..];
    assert cs == cs[..index] + cs[index..];
    SizeOfConcat(cs[..index] + [cell], cs[index..]);
    SizeOfConcat(cs[..index], [cell]);
    SizeOfConcat(cs[..index], cs[index..]);
    SizeOfSingle(cell);
  }

  /** A row rebuilt by `RemoveColumnStep.apply` at an index within the
      row: its cells without the one at the index, `columns` one down. */
  lemma RemovedRowShape(row: Node, index: nat)
    requires row.Elem? && index < |row.content|
    ensures RemovedRow(row, index)
            == Elem(row.nodeType, AdjustColumns(row.attrs, -1), row.content[..index] + row.content[index + 1..])
    ensures Size(RemovedRow(row, index)) + Size(row.content[index]) == Size(row)
  {
    var cs := row.content;
    RemovedClosed(cs, index, |cs|);
    assert cs[index + 1..|cs|] == cs[index + 1..];
    SizeOfAround(cs, index);
    SizeOfConcat(cs[..index], cs[index + 1..]);
  }

  /** The `columns` attribute holds a number. */
  predicate NumericColumns(n: Node)
  {
    "columns" in AttrsOf(n) && AttrsOf(n)["columns"].Num?
  }

  lemma AdjustColumnsInverse(attrs: Attrs, diff: int)
    requires "columns" in attrs && attrs["columns"].Num?
    ensures AdjustColumns(AdjustColumns(attrs, diff), -diff) == attrs
  {
  }

  /** Removing a cell just inserted gives back the row. */
  lemma AddedRowInverse(row: Node, index: nat, cell: Node)
    requires row.Elem? && NumericColumns(row) && index <= |row.content|
    ensures RemovedRow(AddedRow(row, index, cell), index) == row
  {
    var cs := row.content;
    AddedRowShape(row, index, cell);
    var added := AddedRow(row, index, cell);
    RemovedRowShape(added, index);
    AdjustColumnsInverse(row.attrs, 1);
    assert added.content[..index] + added.content[index + 1..] == cs;
  }

  /** Inserting back the cell just removed gives back the row. */
  lemma RemovedRowInverse(row: Node, index: nat)
    requires row.Elem? && NumericColumns(row) && index < |row.content|
    ensures AddedRow(RemovedRow(row, index), index, row.content[index]) == row
  {
    var cs := row.content;
    RemovedRowShape(row, index);
    var removed := RemovedRow(row, index);
    AddedRowShape(removed, index, cs[index]);
    AdjustColumnsInverse(row.attrs, -1);
    assert removed.content[..index] + [cs[index]] + removed.content[index..] == cs;
  }

  // ---------------------------------------------------------------------
  // Tables

  /** Column index `index` is a boundary of every row: every row is an
      element with at least `index` children. */
  predicate Reaches(table: Node, index: nat)
  {
    table.Elem? && forall i :: 0 <= i < |table.content| ==>
      table.content[i].Elem? && index <= |table.content[i].content|
  }

  /** Every row has a cell at `index`. */
  predicate Covers(table: Node, index: nat)
  {
    table.Elem? && forall i :: 0 <= i < |table.content| ==>
      table.content[i].Elem? && index < |table.content[i].content|
  }

  /** The cells at `index`, one per row: what `RemoveColumnStep.invert`
      reads off the document. */
  function Column(table: Node, index: nat): (r: seq<Node>)
    requires Covers(table, index)
    ensures |r| == |table.content|
    ensures forall i :: 0 <= i < |r| ==> r[i] == table.content[i].content[index]
  {
    seq(|table.content|, i requires 0 <= i < |table.content| => table.content[i].content[index])
  }

  /** The table holds numbers in `columns`, on itself and on every row. */
  predicate NumericTable(table: Node)
  {
    && table.Elem? && NumericColumns(table)
    && forall i :: 0 <= i < |table.content| ==> NumericColumns(table.content[i])
  }

  /** The rows before row `i` of a table with a column added grow by the
      cells added to them. */
  lemma {:induction false} AddedPrefix(table: Node, index: nat, cells: seq<Node>, i: nat)
    requires Reaches(table, index) && |cells| >= |table.content| && i <= |table.content|
    ensures SizeOf(AddedTable(table, index, cells).content[..i])
            == SizeOf(table.content[..i]) + SizeOf(cells[..i])
  {
    if i > 0 {
      AddedPrefix(table, index, cells, i - 1);
      var added := AddedTable(table, index, cells);
      SizeOfSnoc(added.content, i - 1);
      SizeOfSnoc(table.content, i - 1);
      SizeOfSnoc(cells, i - 1);
      AddedRowShape(table.content[i - 1], index, cells[i - 1]);
    }
  }

  /** The rows before row `i` of a table with a column removed shrink by
      the cells removed from them. */
  lemma {:induction false} RemovedPrefix(table: Node, index: nat, removed: Node, column: seq<Node>, i: nat)
    requires Covers(table, index) && i <= |table.content|
    requires removed == RemovedTable(table, index) && column == Column(table, index)
    ensures SizeOf(removed.content[..i]) + SizeOf(column[..i]) == SizeOf(table.content[..i])
  {
    if i > 0 {
      RemovedPrefix(table, index, removed, column, i - 1);
      var row := table.content[i - 1];
      SizeOfSnoc(removed.content, i - 1);
      SizeOfSnoc(table.content, i - 1);
      SizeOfSnoc(column, i - 1);
      RemovedRowShape(row, index);
      assert removed.content[i - 1] == RemovedRow(row, index);
    }
  }

  lemma AddedTableInverse(table: Node, index: nat, cells: seq<Node>)
    requires Reaches(table, index) && NumericTable(table) && |cells| >= |table.content|
    ensures RemovedTable(AddedTable(table, index, cells), index) == table
  {
    var added := AddedTable(table, index, cells);
    var back := RemovedTable(added, index);
    forall i | 0 <= i < |table.content|
      ensures back.content[i] == table.content[i]
    {
      AddedRowInverse(table.content[i], index, cells[i]);
    }
    AdjustColumnsInverse(table.attrs, 1);
  }

  lemma RemovedTableInverse(table: Node, index: nat)
    requires Covers(table, index) && NumericTable(table)
    ensures AddedTable(RemovedTable(table, index), index, Column(table, index)) == table
  {
    var removed := RemovedTable(table, index);
    var back := AddedTable(removed, index, Column(table, index));
    forall i | 0 <= i < |table.content|
      ensures back.content[i] == table.content[i]
    {
      RemovedRowInverse(table.content[i], index);
    }
    AdjustColumnsInverse(table.attrs, -1);
  }

  /** Row `i` of a table with a column added: the new cell sits at the
      index, after the cells added to the rows before it. */
  lemma AddedSite(table: Node, index: nat, cells: seq<Node>, added: Node, i: nat)
    requires Reaches(table, index) && |cells| >= |table.content| && i < |table.content|
    requires added == AddedTable(table, index, cells)
    ensures added.content[i].Elem? && index < |added.content[i].content|
    ensures added.content[i].content[index] == cells[i]
    ensures CellPos(added, i, index) == CellPos(table, i, index) + SizeOf(cells[..i])
    ensures CellsAreElements(table.content[i]) && cells[i].Elem? ==> CellsAreElements(added.content[i])
  {
    var row := table.content[i];
    AddedRowShape(row, index, cells[i]);
    AddedPrefix(table, index, cells, i);
    assert added.content[i] == AddedRow(row, index, cells[i]);
    assert added.content[i].content[..index] == row.content[..index];
  }

  /** Row `i` of a table with a column removed: the boundary at the index
      moves back by the cells removed from the rows before it. */
  lemma RemovedSite(table: Node, index: nat, removed: Node, column: seq<Node>, i: nat)
    requires Covers(table, index) && i < |table.content|
    requires removed == RemovedTable(table, index) && column == Column(table, index)
    ensures removed.content[i].Elem? && index <= |removed.content[i].content|
    ensures CellPos(removed, i, index) + SizeOf(column[..i]) == CellPos(table, i, index)
    ensures CellsAreElements(table.content[i]) ==> CellsAreElements(removed.content[i])
  {
    var row := table.content[i];
    RemovedRowShape(row, index);
    RemovedPrefix(table, index, removed, column, i);
    assert removed.content[i] == RemovedRow(row, index);
    assert removed.content[i].content[..index] == row.content[..index];
  }

  /** The position `invert` resolves first is the first row's, so the
      table it reads is the anchor's table and the column index is the
      anchor's. */
  lemma FirstIsAnchor(step: Step, doc: Node, a: Anchor)
    requires doc.Elem? && CheckRows(step, Checks(step, doc), 0, None) == Ok(Some(a))
    ensures |Starts(step)| >= 1 && Resolve(doc, Starts(step)[0]).Ok?
    ensures |Children(a.table)| == |Starts(step)|
    ensures Invert(step, doc) == InvertAt(step, Resolve(doc, Starts(step)[0]))
    ensures var first := Resolve(doc, Starts(step)[0]).value;
            && first.Depth() >= 2 && first.NodeAtDepth(first.Depth() - 1) == a.table
            && first.IndexAt(first.Depth()) == a.index
  {
    var checks := Checks(step, doc);
    CheckRowsOk(step, checks, a);
    assert checks[0] == CheckPos(step, doc, 0);
  }

  // ---------------------------------------------------------------------
  // The round trips

  /** The table a checked step addresses has the shape the table schema
      gives it: rows of cells that are elements, and numbers in `columns`
      on the table and on every row. */
  predicate SchemaTable(table: Node)
  {
    RowsOfElements(table) && NumericTable(table)
  }

  /** A checked step puts its column index within every row of the
      anchor's table. */
  lemma AnchorReaches(step: Step, ctx: seq<Frame>, a: Anchor)
    requires a.table.Elem? && |a.table.content| == |Starts(step)|
    requires forall i :: 0 <= i < |Starts(step)| ==> SiteOf(step, ctx, a.table, a.index, i)
    ensures Reaches(a.table, a.index)
  {
    forall i | 0 <= i < |a.table.content|
      ensures a.table.content[i].Elem? && a.index <= |a.table.content[i].content|
    {
      assert SiteOf(step, ctx, a.table, a.index, i);
    }
  }

  /** The closed form of `AddColumnStep.invert` once the first position
      resolved into a table of no more rows than there are positions and
      cells: in row `i` it deletes from the old start shifted by the cells
      inserted in rows before `i` to the old start shifted by those up to
      and including `i`. */
  lemma InvertAtAddForm(step: Step, first: ResolvedPos, table: Node)
    requires step.AddColumn? && first.Depth() >= 1 && first.NodeAtDepth(first.Depth() - 1) == table
    requires |Children(table)| == |step.positions| <= |step.cells|
    ensures InvertAt(step, Ok(first)).Ok? && InvertAt(step, Ok(first)).value.RemoveColumn?
    ensures var inv := InvertAt(step, Ok(first)).value;
            && |inv.from| == |inv.to| == |step.positions|
            && forall i :: 0 <= i < |step.positions| ==>
                 && inv.from[i] == step.positions[i] + SizeOf(step.cells[..i])
                 && inv.to[i] == step.positions[i] + SizeOf(step.cells[..i + 1])
  {
  }

  /** `AddColumnStep.invert` of an addition at the boundaries of column `j`
      of a table sitting in the frames `ctx`: in every row of the rebuilt
      table it deletes exactly the range the inserted cell occupies there,
      from that cell's start in the rebuilt document to its end. */
  lemma InvertAtAdd(step: Step, first: ResolvedPos, ctx: seq<Frame>, table: Node, j: nat)
    requires step.AddColumn? && SchemaTable(table) && Reaches(table, j)
    requires first.Depth() >= 1 && first.NodeAtDepth(first.Depth() - 1) == table
    requires forall i :: 0 <= i < |step.cells| ==> step.cells[i].Elem?
    requires |table.content| == |step.positions| <= |step.cells|
    requires forall i :: 0 <= i < |step.positions| ==> SiteOf(step, ctx, table, j, i)
    ensures InvertAt(step, Ok(first)).Ok? && InvertAt(step, Ok(first)).value.RemoveColumn?
    ensures var inv := InvertAt(step, Ok(first)).value;
            var added := AddedTable(table, j, step.cells);
            && |inv.from| == |inv.to| == |step.positions| == |added.content|
            && forall i :: 0 <= i < |step.positions| ==>
                 && j < |added.content[i].content| && CellsAreElements(added.content[i])
                 && added.content[i].content[j] == step.cells[i]
                 && inv.from[i] == Inner(ctx) + CellPos(added, i, j)
                 && inv.to[i] == inv.from[i] + Size(step.cells[i])
  {
    InvertAtAddForm(step, first, table);
    var inverse := InvertAt(step, Ok(first)).value;
    var cells := step.cells;
    var added := AddedTable(table, j, cells);
    forall i | 0 <= i < |step.positions|
      ensures && j < |added.content[i].content| && CellsAreElements(added.content[i])
              && added.content[i].content[j] == cells[i]
              && inverse.from[i] == Inner(ctx) + CellPos(added, i, j)
              && inverse.to[i] == inverse.from[i] + Size(cells[i])
    {
      assert SiteOf(step, ctx, table, j, i);
      AddedSite(table, j, cells, added, i);
      SizeOfSnoc(cells, i);
    }
  }

  /** The closed form of `RemoveColumnStep.invert` once the first position
      resolved into a table with a cell at its index in every row: it
      inserts the removed column, in row `i` at the old start shifted back
      by the cells removed from rows before `i`. */
  lemma InvertAtRemoveForm(step: Step, first: ResolvedPos, table: Node, index: nat)
    requires step.RemoveColumn? && first.Depth() >= 1 && first.NodeAtDepth(first.Depth() - 1) == table
    requires first.IndexAt(first.Depth()) == index
    requires Covers(table, index) && |table.content| == |step.from|
    ensures InvertAt(step, Ok(first)).Ok? && InvertAt(step, Ok(first)).value.AddColumn?
    ensures var inv := InvertAt(step, Ok(first)).value;
            && inv.cells == Column(table, index) && |inv.positions| == |step.from|
            && forall i :: 0 <= i < |step.from| ==>
                 inv.positions[i] == step.from[i] - SizeOf(inv.cells[..i])
  {
    var rows := table.content;
    assert !exists i :: 0 <= i < |rows| && index >= |Children(rows[i])|;
    var cells := seq(|rows|, i requires 0 <= i < |rows| => Children(rows[i])[index]);
    assert cells == Column(table, index);
  }

  /** `RemoveColumnStep.invert` of a removal at the boundaries of column
      `j` of a table sitting in the frames `ctx`: it inserts back the very
      cells the removal deletes, in every row of the smaller table at the
      boundary where the removed cell stood. */
  lemma InvertAtRemove(step: Step, first: ResolvedPos, ctx: seq<Frame>, table: Node, j: nat)
    requires step.RemoveColumn? && SchemaTable(table) && Covers(table, j)
    requires first.Depth() >= 1 && first.NodeAtDepth(first.Depth() - 1) == table
    requires first.IndexAt(first.Depth()) == j
    requires |table.content| == |step.from|
    requires forall i :: 0 <= i < |step.from| ==> SiteOf(step, ctx, table, j, i)
    ensures InvertAt(step, Ok(first)).Ok? && InvertAt(step, Ok(first)).value.AddColumn?
    ensures var inv := InvertAt(step, Ok(first)).value;
            var removed := RemovedTable(table, j);
            && inv.cells == Column(table, j) && |inv.positions| == |step.from| == |removed.content|
            && forall i :: 0 <= i < |step.from| ==>
                 && j <= |removed.content[i].content| && CellsAreElements(removed.content[i])
                 && inv.positions[i] == Inner(ctx) + CellPos(removed, i, j)
  {
    InvertAtRemoveForm(step, first, table, j);
    var inverse := InvertAt(step, Ok(first)).value;
    var removed := RemovedTable(table, j);
    forall i | 0 <= i < |step.from|
      ensures && j <= |removed.content[i].content| && CellsAreElements(removed.content[i])
              && inverse.positions[i] == Inner(ctx) + CellPos(removed, i, j)
    {
      assert SiteOf(step, ctx, table, j, i);
      RemovedSite(table, j, removed, inverse.cells, i);
    }
  }

  /** Adding a column and then applying the step's inverse to the result
      gives back the document, when the table has the schema's shape and
      the new cells are elements. */
  lemma AddThenInvert(step: Step, doc: Node, a: Anchor)
    requires doc.Elem? && step.AddColumn? && Apply(step, doc).Ok?
    requires CheckRows(step, Checks(step, doc), 0, None) == Ok(Some(a))
    requires SchemaTable(a.table)
    requires forall i :: 0 <= i < |step.cells| ==> step.cells[i].Elem?
    ensures Invert(step, doc).Ok? && Apply(step, doc).value.Elem?
    ensures Apply(Invert(step, doc).value, Apply(step, doc).value) == Ok(doc)
  {
    var ctx := PathCtx(doc, step.positions[0], a.tableDepth);
    ApplySite(step, doc, a, ctx);
    AnchorReaches(step, ctx, a);
    ApplyChecked(step, doc, a, ctx);
    assert Starts(step) == step.positions && Children(a.table) == a.table.content;
    assert |step.cells| >= |a.table.content|;
    FirstIsAnchor(step, doc, a);
    RemoveAdded(step, Resolve(doc, step.positions[0]).value, ctx, a.table, a.index);
  }

  /** The table-local half of `AddThenInvert`: the inverse of an addition
      at the boundaries of column `j`, applied to the document with the
      rebuilt table in the same frames, puts the original table back. */
  lemma RemoveAdded(step: Step, first: ResolvedPos, ctx: seq<Frame>, table: Node, j: nat)
    requires step.AddColumn? && SchemaTable(table) && Reaches(table, j) && |ctx| >= 1
    requires first.Depth() >= 1 && first.NodeAtDepth(first.Depth() - 1) == table
    requires forall i :: 0 <= i < |step.cells| ==> step.cells[i].Elem?
    requires |table.content| == |step.positions| >= 1 && |step.cells| >= |step.positions|
    requires forall i :: 0 <= i < |step.positions| ==> SiteOf(step, ctx, table, j, i)
    ensures InvertAt(step, Ok(first)).Ok? && Plug(ctx, AddedTable(table, j, step.cells)).Elem?
    ensures Apply(InvertAt(step, Ok(first)).value, Plug(ctx, AddedTable(table, j, step.cells)))
            == Ok(Plug(ctx, table))
  {
    InvertAtAdd(step, first, ctx, table, j);
    var inverse := InvertAt(step, Ok(first)).value;
    var added := AddedTable(table, j, step.cells);
    ApplyOnSite(inverse, Plug(ctx, added), ctx, added, j);
    AddedTableInverse(table, j, step.cells);
  }

  /** Removing a column and then applying the step's inverse to the result
      gives back the document, when the table has the schema's shape. */
  lemma RemoveThenInvert(step: Step, doc: Node, a: Anchor)
    requires doc.Elem? && step.RemoveColumn? && Apply(step, doc).Ok?
    requires CheckRows(step, Checks(step, doc), 0, None) == Ok(Some(a))
    requires SchemaTable(a.table)
    ensures Invert(step, doc).Ok? && Apply(step, doc).value.Elem?
    ensures Apply(Invert(step, doc).value, Apply(step, doc).value) == Ok(doc)
  {
    var ctx := PathCtx(doc, step.from[0], a.tableDepth);
    ApplySite(step, doc, a, ctx);
    AnchorCovers(step, ctx, a);
    ApplyChecked(step, doc, a, ctx);
    assert Starts(step) == step.from;
    FirstIsAnchor(step, doc, a);
    AddRemoved(step, Resolve(doc, step.from[0]).value, ctx, a.table, a.index);
  }

  /** The table-local half of `RemoveThenInvert`: the inverse of a removal
      at the boundaries of column `j`, applied to the document with the
      rebuilt table in the same frames, puts the original table back. */
  lemma AddRemoved(step: Step, first: ResolvedPos, ctx: seq<Frame>, table: Node, j: nat)
    requires step.RemoveColumn? && SchemaTable(table) && Covers(table, j) && |ctx| >= 1
    requires first.Depth() >= 1 && first.NodeAtDepth(first.Depth() - 1) == table
    requires first.IndexAt(first.Depth()) == j
    requires |table.content| == |step.from| >= 1
    requires forall i :: 0 <= i < |step.from| ==> SiteOf(step, ctx, table, j, i)
    ensures InvertAt(step, Ok(first)).Ok? && Plug(ctx, RemovedTable(table, j)).Elem?
    ensures Apply(InvertAt(step, Ok(first)).value, Plug(ctx, RemovedTable(table, j))) == Ok(Plug(ctx, table))
  {
    InvertAtRemove(step, first, ctx, table, j);
    var inverse := InvertAt(step, Ok(first)).value;
    var removed := RemovedTable(table, j);
    ApplyOnSite(inverse, Plug(ctx, removed), ctx, removed, j);
    RemovedTableInverse(table, j);
  }

  /** A checked removal whose table's rows hold only elements has a cell at
      its column index in every row. */
  lemma AnchorCovers(step: Step, ctx: seq<Frame>, a: Anchor)
    requires step.RemoveColumn? && RowsOfElements(a.table) && |a.table.content| == |Starts(step)|
    requires forall i :: 0 <= i < |Starts(step)| ==> SiteOf(step, ctx, a.table, a.index, i)
    ensures Covers(a.table, a.index)
  {
    forall i | 0 <= i < |a.table.content|
      ensures a.table.content[i].Elem? && a.index < |a.table.content[i].content|
    {
      assert SiteOf(step, ctx, a.table, a.index, i);
    }
  }
}

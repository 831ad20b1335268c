/** Where a cell position sits: the resolved form of a position between two
    cells of a row, inside a table somewhere in a document. The column steps
    address rows through such positions, so their proofs go through these
    lemmas. */
module TableSites {
  import opened DocModel
  import opened Contexts

  /** A row whose children are all elements, as the table schema's
      content expression `table_cell{.columns}` demands. */
  predicate CellsAreElements(row: Node)
  {
    row.Elem? && forall j :: 0 <= j < |row.content| ==> row.content[j].Elem?
  }

  /** Every row of the table is an element whose children are elements. */
  predicate RowsOfElements(table: Node)
  {
    table.Elem? && forall i :: 0 <= i < |table.content| ==> CellsAreElements(table.content[i])
  }

  lemma CellsArePositive(row: Node)
    requires CellsAreElements(row)
    ensures Positive(row.content)
  {
  }

  /** The offset, inside the table's content, of the boundary before cell
      `j` of row `i`. */
  function CellPos(table: Node, i: int, j: int): int
    requires table.Elem? && 0 <= i < |table.content| && table.content[i].Elem?
    requires 0 <= j <= |table.content[i].content|
  {
    SizeOf(table.content[..i]) + 1 + SizeOf(table.content[i].content[..j])
  }

  /** A boundary between the cells of a row resolves, inside the table, to
      the table pointing at the row and the row pointing at the cell. */
  lemma CellLevels(table: Node, i: int, j: int, inner: int)
    requires table.Elem? && 0 <= i < |table.content| && table.content[i].Elem?
    requires Positive(table.content[i].content) && 0 <= j <= |table.content[i].content|
    ensures 0 <= CellPos(table, i, j) <= SizeOf(table.content)
    ensures var row := table.content[i];
            var o := SizeOf(table.content[..i]);
            ResolveIn(table, CellPos(table, i, j), inner).0
            == [Level(table, i, inner + o), Level(row, j, inner + o + 1 + SizeOf(row.content[..j]))]
  {
    var row := table.content[i];
    var o := SizeOf(table.content[..i]);
    var q := CellPos(table, i, j);
    SizeOfAround(table.content, i);
    SizeOfPrefixMono(row.content, j, |row.content|);
    assert row.content[..|row.content|] == row.content;
    ResolveInDescends(table, q, inner, i);
    ResolveInStops(row, j, inner + o + 1);
  }

  /** The converse, for rows that hold no text: a position whose local
      resolution inside the table is two levels deep is the boundary
      before cell `j` of row `i`, where `i` and `j` are its two indices. */
  lemma LocalCell(table: Node, q: int, inner: int)
    requires table.Elem? && 0 <= q <= SizeOf(table.content)
    requires |ResolveIn(table, q, inner).0| == 2
    ensures var l := ResolveIn(table, q, inner).0;
            && l[0].index < |table.content| && l[1].node == table.content[l[0].index]
            && l[1].node.Elem? && l[1].index <= |l[1].node.content|
    ensures var l := ResolveIn(table, q, inner).0;
            var i, j := l[0].index, l[1].index;
            CellsAreElements(table.content[i]) ==>
              q == CellPos(table, i, j)
  {
    FindIndexSpec(table.content, q);
    var (i, o) := FindIndex(table.content, q);
    var row := table.content[i];
    var x := q - o - 1;
    FindIndexSpec(row.content, x);
  }

  /** The first position of a step: when it lies at depth two or more, the
      node above its parent (the table) sits in the frames `PathCtx`
      collects, just after position `before(-1)`, and the last two levels
      are the position's resolution inside that table. */
  lemma SiteFirst(doc: Node, p: int, k: nat, ctx: seq<Frame>, table: Node)
    requires doc.Elem? && 0 <= p <= SizeOf(doc.content)
    requires |ResolveIn(doc, p, 0).0| >= 3 && k == |ResolveIn(doc, p, 0).0| - 2
    requires ctx == PathCtx(doc, p, k) && table == ResolveIn(doc, p, 0).0[k].node
    ensures table.Elem? && Plug(ctx, table) == doc && |ctx| == k
    ensures Inner(ctx) == ResolveIn(doc, p, 0).0[k - 1].childStart + 1
    ensures 0 <= p - Inner(ctx) <= SizeOf(table.content)
    ensures ResolveIn(table, p - Inner(ctx), Inner(ctx)).0 == ResolveIn(doc, p, 0).0[k..]
  {
    ResolveThrough(doc, p, 0, k, ctx, table, p - Inner(ctx), Inner(ctx));
    LevelsLast(ctx, table, 0);
  }

  /** Any other position whose `before(-1)` is the first one's: it lies in
      the same table, in the same frames. */
  lemma SiteSame(doc: Node, p: int, ctx: seq<Frame>, table: Node, path: seq<Level>, k: nat)
    requires doc.Elem? && 0 <= p <= SizeOf(doc.content)
    requires table.Elem? && Plug(ctx, table) == doc
    requires path == ResolveIn(doc, p, 0).0 && |path| >= 3 && k == |path| - 2
    requires path[k - 1].childStart == Inner(ctx) - 1
    ensures PathCtx(doc, p, k) == ctx && path[k].node == table
    ensures 0 <= p - Inner(ctx) <= SizeOf(table.content)
    ensures ResolveIn(table, p - Inner(ctx), Inner(ctx)).0 == path[k..]
  {
    var ctx' := PathCtx(doc, p, k);
    var table' := path[k].node;
    SiteFirst(doc, p, k, ctx', table');
    PlugUnique(ctx', table', ctx, table);
  }
}

/** What a successful check loop of `apply` says about the document, and
    the converse: positions at the cell boundaries of one table pass it.
    Together they give the shape of a successful `apply`: the table the
    first position lies in is swapped for its rebuilt copy, inside the same
    ancestors, and nothing else changes. */
module ApplyProofs {
  import opened Outcomes
  import opened DocModel
  import opened Contexts
  import opened TableSites
  import opened TableSpec

  /** Row `i` passed its own checks and agrees with the anchor on the
      table start and the column index. */
  predicate RowAgrees(checks: seq<Result<ResolvedPos>>, i: nat, a: Anchor)
    requires Deep(checks) && i < |checks|
  {
    checks[i].Ok? && SameColumn(checks[i].value, a)
  }

  /** The anchor the first row fixes. */
  function AnchorOf(rp: ResolvedPos): Anchor
    requires |rp.path| >= 3
  {
    var d := rp.Depth();
    Anchor(rp.NodeAtDepth(d - 1), rp.Before(d - 1), rp.IndexAt(d), d - 1)
  }

  /** One turn of the check loop once the anchor is fixed. */
  lemma CheckRowsStep(step: Step, checks: seq<Result<ResolvedPos>>, i: nat, a: Anchor)
    requires Deep(checks) && i < |checks|
    ensures CheckRows(step, checks, i, Some(a)).Ok? <==>
              RowAgrees(checks, i, a) && CheckRows(step, checks, i + 1, Some(a)).Ok?
    ensures CheckRows(step, checks, i, Some(a)).Ok? ==>
              CheckRows(step, checks, i, Some(a)) == CheckRows(step, checks, i + 1, Some(a))
  {
  }

  lemma AgreeFrom(checks: seq<Result<ResolvedPos>>, i: nat, a: Anchor)
    requires Deep(checks) && i < |checks|
    ensures (forall k :: i <= k < |checks| ==> RowAgrees(checks, k, a)) <==>
              RowAgrees(checks, i, a) && forall k :: i + 1 <= k < |checks| ==> RowAgrees(checks, k, a)
  {
    if RowAgrees(checks, i, a) && forall k :: i + 1 <= k < |checks| ==> RowAgrees(checks, k, a) {
      forall k | i <= k < |checks|
        ensures RowAgrees(checks, k, a)
      {
        if k > i {
          assert i + 1 <= k;
        }
      }
    }
  }

  /** Once the anchor is fixed, the rest of the loop succeeds exactly when
      every remaining row agrees with it, and it keeps the anchor. */
  lemma {:induction false} CheckRowsFrom(step: Step, checks: seq<Result<ResolvedPos>>, i: nat, a: Anchor)
    requires Deep(checks) && i <= |checks|
    ensures CheckRows(step, checks, i, Some(a)).Ok? ==> CheckRows(step, checks, i, Some(a)) == Ok(Some(a))
    ensures CheckRows(step, checks, i, Some(a)).Ok? <==>
              forall k :: i <= k < |checks| ==> RowAgrees(checks, k, a)
    decreases |checks| - i
  {
    if i < |checks| {
      CheckRowsFrom(step, checks, i + 1, a);
      CheckRowsStep(step, checks, i, a);
      AgreeFrom(checks, i, a);
    }
  }

  /** The first turn of the check loop fixes the anchor. */
  lemma CheckRowsFirst(step: Step, checks: seq<Result<ResolvedPos>>)
    requires Deep(checks) && |checks| >= 1
    ensures checks[0].Err? ==> CheckRows(step, checks, 0, None) == Err(checks[0].error)
    ensures checks[0].Ok? ==>
              var a0 := AnchorOf(checks[0].value);
              CheckRows(step, checks, 0, None)
              == if |Children(a0.table)| != |checks| then Err(StepFailed("Mismatch in number of rows"))
                 else CheckRows(step, checks, 1, Some(a0))
  {
  }

  /** The check loop finds no anchor exactly when there are no positions. */
  lemma CheckRowsNone(step: Step, checks: seq<Result<ResolvedPos>>)
    requires Deep(checks)
    ensures CheckRows(step, checks, 0, None) == Ok(None) <==> |checks| == 0
  {
    if |checks| >= 1 {
      CheckRowsFirst(step, checks);
      if checks[0].Ok? {
        CheckRowsFrom(step, checks, 1, AnchorOf(checks[0].value));
      }
    }
  }

  /** The check loop of `apply` succeeds with anchor `a` exactly when there
      is a first position, `a` is what it resolves to, the table has one
      row per position, and every row agrees with `a`. */
  lemma CheckRowsOk(step: Step, checks: seq<Result<ResolvedPos>>, a: Anchor)
    requires Deep(checks)
    ensures CheckRows(step, checks, 0, None) == Ok(Some(a)) <==>
              && |checks| >= 1 && checks[0].Ok?
              && a == AnchorOf(checks[0].value)
              && |Children(a.table)| == |checks|
              && forall k :: 0 <= k < |checks| ==> RowAgrees(checks, k, a)
  {
    if |checks| >= 1 {
      CheckRowsFirst(step, checks);
      if checks[0].Ok? {
        var a0 := AnchorOf(checks[0].value);
        CheckRowsFrom(step, checks, 1, a0);
        assert RowAgrees(checks, 0, a0);
        AgreeFrom(checks, 0, a0);
      }
    }
  }

  /** What row `i` of a checked step says about the anchor's table: the
      row is an element whose children reach the column index, and when
      its children are elements the position is the boundary before cell
      `index`, `tablePos + 2 + rowOff + Σ cell sizes` (for a removal, with
      the cell at the index ending at `to[i]`). */
  predicate SiteOf(step: Step, ctx: seq<Frame>, table: Node, index: nat, i: nat)
    requires table.Elem? && i < |Starts(step)|
  {
    && i < |table.content| && table.content[i].Elem? && index <= |table.content[i].content|
    && (CellsAreElements(table.content[i]) ==>
          && Starts(step)[i] == Inner(ctx) + CellPos(table, i, index)
          && (step.RemoveColumn? ==>
                && index < |table.content[i].content| && i < |step.to|
                && step.to[i] == step.from[i] + Size(table.content[i].content[index])))
  }

  /** A position whose parent's parent starts right after `Inner(ctx) - 1`
      in a document made of `table` in the frames `ctx`: it is in row `i`
      of that table, where `i` and the column index are its last two
      indices. */
  lemma SiteAt(doc: Node, p: int, path: seq<Level>, ctx: seq<Frame>, table: Node, i: nat, index: nat)
    requires doc.Elem? && 0 <= p <= SizeOf(doc.content) && path == ResolveIn(doc, p, 0).0
    requires |path| >= 3 && path[|path| - 3].childStart == Inner(ctx) - 1
    requires path[|path| - 2].index == i && path[|path| - 1].index == index
    requires table.Elem? && Plug(ctx, table) == doc
    ensures i < |table.content| && table.content[i].Elem? && index <= |table.content[i].content|
    ensures path[|path| - 1].node == table.content[i]
    ensures CellsAreElements(table.content[i]) ==> p == Inner(ctx) + CellPos(table, i, index)
  {
    var k := |path| - 2;
    SiteSame(doc, p, ctx, table, path, k);
    LocalSite(table, p - Inner(ctx), Inner(ctx), path, i, index);
  }

  /** `LocalCell` for the last two levels of a path, with their indices
      named. */
  lemma LocalSite(table: Node, q: int, inner: int, path: seq<Level>, i: nat, index: nat)
    requires table.Elem? && 0 <= q <= SizeOf(table.content) && |path| >= 2
    requires ResolveIn(table, q, inner).0 == path[|path| - 2..]
    requires path[|path| - 2].index == i && path[|path| - 1].index == index
    ensures i < |table.content| && table.content[i].Elem? && index <= |table.content[i].content|
    ensures path[|path| - 1].node == table.content[i]
    ensures CellsAreElements(table.content[i]) ==> q == CellPos(table, i, index)
  {
    var l := ResolveIn(table, q, inner).0;
    assert l[0] == path[|path| - 2] && l[1] == path[|path| - 1];
    LocalCell(table, q, inner);
  }

  /** `nodeAfter` of a position between the cells of a row of elements. */
  lemma AfterCell(rp: ResolvedPos, row: Node, index: nat, childStart: int)
    requires |rp.path| >= 1 && rp.path[|rp.path| - 1] == Level(row, index, childStart)
    requires CellsAreElements(row)
    ensures rp.NodeAfter() == if index < |row.content| then Some(row.content[index]) else None
  {
  }

  lemma RowFact(step: Step, doc: Node, a: Anchor, ctx: seq<Frame>, i: nat)
    requires doc.Elem? && i < |Starts(step)| && RowAgrees(Checks(step, doc), i, a)
    requires a.table.Elem? && Plug(ctx, a.table) == doc && Inner(ctx) == a.tablePos + 1
    ensures SiteOf(step, ctx, a.table, a.index, i)
  {
    var p := Starts(step)[i];
    var rp := CheckPos(step, doc, i).value;
    var path := rp.path;
    SiteAt(doc, p, path, ctx, a.table, i, a.index);
    var row := a.table.content[i];
    if CellsAreElements(row) && step.RemoveColumn? {
      AfterCell(rp, row, a.index, path[|path| - 1].childStart);
    }
  }

  /** The anchor the first position fixes names the table it lies in, in
      the frames `PathCtx` collects, just after `before(-1)`. */
  lemma AnchorSite(doc: Node, p: int, rp: ResolvedPos, a: Anchor, ctx: seq<Frame>)
    requires doc.Elem? && Resolve(doc, p).Ok? && rp == Resolve(doc, p).value
    requires |rp.path| >= 3 && a == AnchorOf(rp) && ctx == PathCtx(doc, p, a.tableDepth)
    ensures a.table.Elem? && Plug(ctx, a.table) == doc
    ensures |ctx| == a.tableDepth >= 1 && Inner(ctx) == a.tablePos + 1
  {
    SiteFirst(doc, p, a.tableDepth, ctx, a.table);
  }

  /** A successful check loop: the anchor's table sits in the frames
      `PathCtx` collects for the first position, just after `tablePos`;
      it has one row per position; and every position is the cell
      boundary `SiteOf` describes. */
  lemma ApplySite(step: Step, doc: Node, a: Anchor, ctx: seq<Frame>)
    requires doc.Elem? && CheckRows(step, Checks(step, doc), 0, None) == Ok(Some(a))
    requires ctx == PathCtx(doc, Starts(step)[0], a.tableDepth)
    ensures a.table.Elem? && Plug(ctx, a.table) == doc
    ensures |ctx| == a.tableDepth >= 1 && Inner(ctx) == a.tablePos + 1
    ensures |a.table.content| == |Starts(step)|
    ensures forall i :: 0 <= i < |Starts(step)| ==> SiteOf(step, ctx, a.table, a.index, i)
  {
    var checks := Checks(step, doc);
    CheckRowsOk(step, checks, a);
    assert checks[0] == CheckPos(step, doc, 0);
    AnchorSite(doc, Starts(step)[0], checks[0].value, a, ctx);
    forall i | 0 <= i < |Starts(step)|
      ensures SiteOf(step, ctx, a.table, a.index, i)
    {
      RowFact(step, doc, a, ctx, i);
    }
  }

  /** The resolved path of the boundary before cell `j` of row `i` of a
      table in the document: the table's ancestors, then the table at row
      `i`, then the row at cell `j`. */
  lemma CellPath(doc: Node, ctx: seq<Frame>, table: Node, i: nat, j: nat, p: int)
    requires table.Elem? && Plug(ctx, table) == doc && |ctx| >= 1
    requires i < |table.content| && CellsAreElements(table.content[i]) && j <= |table.content[i].content|
    requires p == Inner(ctx) + CellPos(table, i, j)
    ensures doc.Elem? && 0 <= p <= SizeOf(doc.content)
    ensures var path := ResolveIn(doc, p, 0).0;
            var row := table.content[i];
            && |path| == |ctx| + 2 && path[|ctx|].node == table && path[|ctx|].index == i
            && path[|ctx| + 1] == Level(row, j, Inner(ctx) + SizeOf(table.content[..i]) + 1 + SizeOf(row.content[..j]))
            && path[|ctx| - 1].childStart == Inner(ctx) - 1
  {
    var q := CellPos(table, i, j);
    CellsArePositive(table.content[i]);
    CellLevels(table, i, j, Inner(ctx));
    PlugPathAt(ctx, table, q, 0, Inner(ctx), doc, p);
    LevelsLast(ctx, table, 0);
  }

  /** The converse, one row at a time: a position at the boundary before
      cell `j` of row `i` of a table in the document passes the checks of
      row `i`, with the table start and column index of that table. */
  lemma CellCheck(step: Step, doc: Node, ctx: seq<Frame>, table: Node, j: nat, i: nat)
    requires doc.Elem? && table.Elem? && Plug(ctx, table) == doc && |ctx| >= 1
    requires i < |Starts(step)| && i < |table.content| && CellsAreElements(table.content[i])
    requires j <= |table.content[i].content|
    requires Starts(step)[i] == Inner(ctx) + CellPos(table, i, j)
    requires step.RemoveColumn? ==>
               && j < |table.content[i].content| && i < |step.to|
               && step.to[i] == step.from[i] + Size(table.content[i].content[j])
    ensures Checks(step, doc)[i].Ok?
    ensures RowAgrees(Checks(step, doc), i, Anchor(table, Inner(ctx) - 1, j, |ctx|))
    ensures AnchorOf(Checks(step, doc)[i].value) == Anchor(table, Inner(ctx) - 1, j, |ctx|)
  {
    var p := Starts(step)[i];
    CellPath(doc, ctx, table, i, j, p);
    var rp := Resolve(doc, p).value;
    var path := rp.path;
    var row := table.content[i];
    AfterCell(rp, row, j, path[|ctx| + 1].childStart);
    assert Checks(step, doc)[i] == CheckPos(step, doc, i);
  }

  /** Positions at the cell boundaries of column `j` of a table whose rows
      hold only elements, one per row, pass the check loop of `apply` with
      that table as the anchor; the frames `PathCtx` collects are the
      table's own. */
  lemma CheckRowsOnSite(step: Step, doc: Node, ctx: seq<Frame>, table: Node, j: nat)
    requires doc.Elem? && RowsOfElements(table) && Plug(ctx, table) == doc && |ctx| >= 1
    requires |table.content| == |Starts(step)| >= 1
    requires forall i :: 0 <= i < |Starts(step)| ==>
               && j <= |table.content[i].content|
               && Starts(step)[i] == Inner(ctx) + CellPos(table, i, j)
               && (step.RemoveColumn? ==>
                     && j < |table.content[i].content| && i < |step.to|
                     && step.to[i] == step.from[i] + Size(table.content[i].content[j]))
    ensures CheckRows(step, Checks(step, doc), 0, None) == Ok(Some(Anchor(table, Inner(ctx) - 1, j, |ctx|)))
    ensures PathCtx(doc, Starts(step)[0], |ctx|) == ctx
  {
    var a := Anchor(table, Inner(ctx) - 1, j, |ctx|);
    forall i | 0 <= i < |Starts(step)|
      ensures RowAgrees(Checks(step, doc), i, a)
    {
      CellCheck(step, doc, ctx, table, j, i);
    }
    CellCheck(step, doc, ctx, table, j, 0);
    CheckRowsOk(step, Checks(step, doc), a);
    FirstRowFrames(step, doc, ctx, table, j);
  }

  /** The frames `PathCtx` collects for the first position of a step at
      the boundaries of column `j` are the table's own. */
  lemma FirstRowFrames(step: Step, doc: Node, ctx: seq<Frame>, table: Node, j: nat)
    requires doc.Elem? && table.Elem? && Plug(ctx, table) == doc && |ctx| >= 1
    requires 1 <= |Starts(step)| && 1 <= |table.content| && CellsAreElements(table.content[0])
    requires j <= |table.content[0].content|
    requires Starts(step)[0] == Inner(ctx) + CellPos(table, 0, j)
    requires step.RemoveColumn? ==>
               && j < |table.content[0].content| && 0 < |step.to|
               && step.to[0] == step.from[0] + Size(table.content[0].content[j])
    ensures PathCtx(doc, Starts(step)[0], |ctx|) == ctx
  {
    CellCheck(step, doc, ctx, table, j, 0);
    var p := Starts(step)[0];
    var path := ResolveIn(doc, p, 0).0;
    SiteSame(doc, p, ctx, table, path, |ctx|);
  }

  /** `apply` after a successful check loop: the anchor's table sits in the
      document in the frames `ctx`, its content starting just after
      `tablePos`, and is swapped for its rebuilt copy in those frames,
      unless an addition has fewer cells than the table has rows. */
  lemma ApplyChecked(step: Step, doc: Node, a: Anchor, ctx: seq<Frame>)
    requires doc.Elem? && CheckRows(step, Checks(step, doc), 0, None) == Ok(Some(a))
    requires ctx == PathCtx(doc, Starts(step)[0], a.tableDepth)
    ensures a.table.Elem? && Plug(ctx, a.table) == doc && Inner(ctx) == a.tablePos + 1
    ensures step.AddColumn? && |step.cells| >= |Children(a.table)| ==>
              Apply(step, doc) == Ok(Plug(ctx, AddedTable(a.table, a.index, step.cells)))
    ensures step.AddColumn? && |step.cells| < |Children(a.table)| ==>
              Apply(step, doc) == Err(Thrown("TypeError: cell is undefined"))
    ensures step.RemoveColumn? ==> Apply(step, doc) == Ok(Plug(ctx, RemovedTable(a.table, a.index)))
  {
    ApplySite(step, doc, a, ctx);
  }

  /** `apply` of positions at the cell boundaries of column `j` of a table
      whose rows hold only elements: the table is swapped for its rebuilt
      copy in the same frames. */
  lemma ApplyOnSite(step: Step, doc: Node, ctx: seq<Frame>, table: Node, j: nat)
    requires doc.Elem? && RowsOfElements(table) && Plug(ctx, table) == doc && |ctx| >= 1
    requires |table.content| == |Starts(step)| >= 1
    requires forall i :: 0 <= i < |Starts(step)| ==>
               && j <= |table.content[i].content|
               && Starts(step)[i] == Inner(ctx) + CellPos(table, i, j)
               && (step.RemoveColumn? ==>
                     && j < |table.content[i].content| && i < |step.to|
                     && step.to[i] == step.from[i] + Size(table.content[i].content[j]))
    requires step.AddColumn? ==> |step.cells| >= |table.content|
    ensures step.AddColumn? ==> Apply(step, doc) == Ok(Plug(ctx, AddedTable(table, j, step.cells)))
    ensures step.RemoveColumn? ==> Apply(step, doc) == Ok(Plug(ctx, RemovedTable(table, j)))
  {
    var a := Anchor(table, Inner(ctx) - 1, j, |ctx|);
    CheckRowsOnSite(step, doc, ctx, table, j);
    assert Apply(step, doc) == ApplyWith(step, doc, Ok(Some(a)));
    assert Starts(step)[0] == (if step.AddColumn? then step.positions[0] else step.from[0]);
  }
}

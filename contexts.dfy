/** A subtree inside the rest of a document: the frames around it, the
    innermost last. Every depth of a resolved position below a node lies in
    one frame around that node, so these lemmas say how `resolve` behaves
    when one subtree (a table) is swapped for another. */
module Contexts {
  import opened Outcomes
  import opened DocModel

  /** A node with one child cut out. */
  datatype Frame = Frame(nodeType: string, attrs: Attrs, left: seq<Node>, right: seq<Node>)

  function Fill(f: Frame, c: Node): Node
  {
    Elem(f.nodeType, f.attrs, f.left + [c] + f.right)
  }

  lemma FillSize(f: Frame, c: Node)
    ensures SizeOf(Fill(f, c).content) == SizeOf(f.left) + Size(c) + SizeOf(f.right)
  {
    SizeOfConcat(f.left + [c], f.right);
    SizeOfConcat(f.left, [c]);
    SizeOfSingle(c);
  }

  /** Where the content of the plugged node starts, counting from the start
      of the root's content. */
  function Inner(ctx: seq<Frame>): nat
  {
    if ctx == [] then 0 else Inner(ctx[..|ctx| - 1]) + SizeOf(ctx[|ctx| - 1].left) + 1
  }

  /** The document made by putting `n` into the hole of the innermost frame
      and filling the frames outwards; `ctx[0]` is the root's frame. */
  function Plug(ctx: seq<Frame>, n: Node): (r: Node)
    ensures n.Elem? ==> r.Elem? && Inner(ctx) + SizeOf(n.content) <= SizeOf(r.content)
  {
    if ctx == [] then n
    else
      var last := ctx[|ctx| - 1];
      FillSize(last, n);
      Plug(ctx[..|ctx| - 1], Fill(last, n))
  }

  /** The depths of a resolved position that lie above the plugged node,
      when the root's content starts at `start`. */
  function Levels(ctx: seq<Frame>, n: Node, start: int): (r: seq<Level>)
    ensures |r| == |ctx|
  {
    if ctx == [] then []
    else
      var init, last := ctx[..|ctx| - 1], ctx[|ctx| - 1];
      Levels(init, Fill(last, n), start)
        + [Level(Fill(last, n), |last.left|, start + Inner(init) + SizeOf(last.left))]
  }

  /** The deepest level above the plugged node holds its parent and points
      just before it. */
  lemma LevelsLast(ctx: seq<Frame>, n: Node, start: int)
    requires ctx != []
    ensures Levels(ctx, n, start)[|ctx| - 1]
         == Level(Fill(ctx[|ctx| - 1], n), |ctx[|ctx| - 1].left|, start + Inner(ctx) - 1)
  {
  }

  /** Resolution depends only on the values of its arguments; this lets a
      proof switch between two spellings of the same position. */
  lemma Same(n: Node, n': Node, p: int, p': int, s: int, s': int)
    requires n.Elem? && 0 <= p <= SizeOf(n.content) && n == n' && p == p' && s == s'
    ensures ResolveIn(n, p, s) == ResolveIn(n', p', s')
  {
  }

  /** The innermost frame: a position inside the filled child descends
      into it. */
  lemma FillResolve(f: Frame, c: Node, x: int, start: int,
                    root: Node, p: int, here: Level, start': int)
    requires c.Elem? && 0 <= x <= SizeOf(c.content)
    requires root == Fill(f, c) && p == SizeOf(f.left) + 1 + x
    requires here == Level(root, |f.left|, start + SizeOf(f.left))
    requires start' == start + SizeOf(f.left) + 1
    ensures root.Elem? && 0 <= p <= SizeOf(root.content)
    ensures ResolveIn(root, p, start)
         == ([here] + ResolveIn(c, x, start').0, ResolveIn(c, x, start').1)
  {
    FillSize(f, c);
    assert root.content[..|f.left|] == f.left;
    assert root.content[|f.left|] == c;
    ResolveInDescends(root, p, start, |f.left|);
    var o1 := SizeOf(root.content[..|f.left|]);
    assert o1 == SizeOf(f.left);
    Same(c, c, p - o1 - 1, x, start + o1 + 1, start');
  }

  lemma LevelsSnoc(ctx: seq<Frame>, n: Node, start: int, here: Level, init: seq<Frame>, last: Frame)
    requires ctx != [] && init == ctx[..|ctx| - 1] && last == ctx[|ctx| - 1]
    requires here == Level(Fill(last, n), |last.left|, start + Inner(init) + SizeOf(last.left))
    ensures Levels(ctx, n, start) == Levels(init, Fill(last, n), start) + [here]
  {
    var l := Levels(ctx, n, start);
    assert l == Levels(init, Fill(last, n), start)
                + [Level(Fill(last, n), |last.left|, start + Inner(init) + SizeOf(last.left))];
  }

  /** Resolving a position inside the plugged node passes through one depth
      per frame and then follows the local resolution inside the node. */
  lemma {:induction false} PlugPath(ctx: seq<Frame>, t: Node, q: int, start: int, inner: int)
    requires t.Elem? && 0 <= q <= SizeOf(t.content) && inner == start + Inner(ctx)
    ensures ResolveIn(Plug(ctx, t), Inner(ctx) + q, start).0
         == Levels(ctx, t, start) + ResolveIn(t, q, inner).0
    decreases |ctx|
  {
    if ctx == [] {
      assert Levels(ctx, t, start) == [];
      Same(Plug(ctx, t), t, Inner(ctx) + q, q, start, inner);
    } else {
      var init, last := ctx[..|ctx| - 1], ctx[|ctx| - 1];
      var t2 := Fill(last, t);
      var q2 := SizeOf(last.left) + 1 + q;
      FillSize(last, t);
      var mid := start + Inner(init);
      calc {
        ResolveIn(Plug(ctx, t), Inner(ctx) + q, start).0;
        { PlugStepSame(ctx, t, q, start, init, last, t2, q2); }
        ResolveIn(Plug(init, t2), Inner(init) + q2, start).0;
        { PlugPath(init, t2, q2, start, mid); }
        Levels(init, t2, start) + ResolveIn(t2, q2, mid).0;
        { PlugPathStep(ctx, t, q, start, inner, init, last, t2, q2, mid); }
        Levels(ctx, t, start) + ResolveIn(t, q, inner).0;
      }
    }
  }

  /** Plugging peels the innermost frame first. */
  lemma PlugSnoc(ctx: seq<Frame>, t: Node, init: seq<Frame>, last: Frame, t2: Node)
    requires ctx != [] && init == ctx[..|ctx| - 1] && last == ctx[|ctx| - 1] && t2 == Fill(last, t)
    ensures Plug(ctx, t) == Plug(init, t2) && Inner(ctx) == Inner(init) + SizeOf(last.left) + 1
  {
  }

  /** The outer half of one frame of `PlugPath`: the position in the whole
      document is the same position one frame further out. */
  lemma PlugStepSame(ctx: seq<Frame>, t: Node, q: int, start: int,
                      init: seq<Frame>, last: Frame, t2: Node, q2: int)
    requires t.Elem? && 0 <= q <= SizeOf(t.content)
    requires ctx != [] && init == ctx[..|ctx| - 1] && last == ctx[|ctx| - 1]
    requires t2 == Fill(last, t) && q2 == SizeOf(last.left) + 1 + q
    ensures 0 <= Inner(init) + q2 <= SizeOf(Plug(init, t2).content)
    ensures ResolveIn(Plug(ctx, t), Inner(ctx) + q, start)
         == ResolveIn(Plug(init, t2), Inner(init) + q2, start)
  {
    FillSize(last, t);
    PlugSnoc(ctx, t, init, last, t2);
    Same(Plug(ctx, t), Plug(init, t2), Inner(ctx) + q, Inner(init) + q2, start, start);
  }

  /** The innermost frame of `PlugPath`: the levels above the filled frame
      followed by its resolution are the levels above the plugged node
      followed by the node's own resolution. */
  lemma PlugPathStep(ctx: seq<Frame>, t: Node, q: int, start: int, inner: int,
                     init: seq<Frame>, last: Frame, t2: Node, q2: int, mid: int)
    requires t.Elem? && 0 <= q <= SizeOf(t.content) && inner == start + Inner(ctx)
    requires ctx != [] && init == ctx[..|ctx| - 1] && last == ctx[|ctx| - 1]
    requires t2 == Fill(last, t) && q2 == SizeOf(last.left) + 1 + q && mid == start + Inner(init)
    requires 0 <= q2 <= SizeOf(t2.content)
    ensures Levels(init, t2, start) + ResolveIn(t2, q2, mid).0
         == Levels(ctx, t, start) + ResolveIn(t, q, inner).0
  {
    var here := Level(t2, |last.left|, mid + SizeOf(last.left));
    InnerSnoc(ctx, init, last);
    FillResolve(last, t, q, mid, t2, q2, here, inner);
    LevelsSnoc(ctx, t, start, here, init, last);
    Regroup(Levels(init, t2, start), here, ResolveIn(t, q, inner).0);
  }

  /** The innermost frame adds its left siblings and its opening token to
      where the plugged node's content starts. */
  lemma InnerSnoc(ctx: seq<Frame>, init: seq<Frame>, last: Frame)
    requires ctx != [] && init == ctx[..|ctx| - 1] && last == ctx[|ctx| - 1]
    ensures Inner(ctx) == Inner(init) + SizeOf(last.left) + 1
  {
  }

  lemma Regroup(up: seq<Level>, here: Level, local: seq<Level>)
    ensures up + ([here] + local) == (up + [here]) + local
  {
  }

  /** Plugging seen from the outside: the root's frame around the rest. */
  lemma {:induction false} PlugCons(f: Frame, c: seq<Frame>, t: Node)
    ensures Plug([f] + c, t) == Fill(f, Plug(c, t))
    ensures Inner([f] + c) == SizeOf(f.left) + 1 + Inner(c)
    decreases |c|
  {
    var fc := [f] + c;
    if c == [] {
      assert fc[..|fc| - 1] == [];
    } else {
      assert fc[..|fc| - 1] == [f] + c[..|c| - 1];
      assert fc[|fc| - 1] == c[|c| - 1];
      PlugCons(f, c[..|c| - 1], Fill(c[|c| - 1], t));
    }
  }

  /** The frames that a resolved path passes through on its way down to
      depth `k`, the root's first. */
  function PathCtx(n: Node, p: int, k: nat): seq<Frame>
    requires n.Elem?
    decreases k
  {
    if k == 0 || !(0 <= p <= SizeOf(n.content)) then []
    else
      FindIndexSpec(n.content, p);
      var (index, offset) := FindIndex(n.content, p);
      if p == offset || !n.content[index].Elem? then []
      else
        [FrameAt(n, index)] + PathCtx(n.content[index], p - offset - 1, k - 1)
  }

  /** One step of `ResolveIn` below the root, spelled with the names the
      decomposition uses. */
  lemma DescendStep(n: Node, p: int, start: int, index: nat, offset: int)
    requires n.Elem? && 0 <= p <= SizeOf(n.content)
    requires (index, offset) == FindIndex(n.content, p)
    requires |ResolveIn(n, p, start).0| >= 2
    ensures index < |n.content| && n.content[index].Elem?
    ensures offset == SizeOf(n.content[..index]) && offset < p < offset + Size(n.content[index])
    ensures 0 <= p - offset - 1 <= SizeOf(n.content[index].content)
    ensures ResolveIn(n, p, start).0[1..]
         == ResolveIn(n.content[index], p - offset - 1, start + offset + 1).0
    ensures forall k: nat :: k > 0 ==>
              PathCtx(n, p, k) == [FrameAt(n, index)] + PathCtx(n.content[index], p - offset - 1, k - 1)
  {
    FindIndexSpec(n.content, p);
    SizeOfAround(n.content, index);
  }

  /** The frame around child `i`, filled with that child, gives the node
      back. */
  function FrameAt(n: Node, i: int): (f: Frame)
    requires n.Elem? && 0 <= i < |n.content|
    ensures Fill(f, n.content[i]) == n && SizeOf(f.left) == SizeOf(n.content[..i])
  {
    assert n.content == n.content[..i] + [n.content[i]] + n.content[i + 1..];
    Frame(n.nodeType, n.attrs, n.content[..i], n.content[i + 1..])
  }

  /** The node at depth `k` of a resolved position sits in the frames
      `PathCtx` collects, and the position lies inside its content. */
  lemma {:induction false} DecomposeAt(n: Node, p: int, start: int, k: nat)
    requires n.Elem? && 0 <= p <= SizeOf(n.content)
    requires k < |ResolveIn(n, p, start).0|
    ensures var ctx := PathCtx(n, p, k);
            var t := ResolveIn(n, p, start).0[k].node;
            && |ctx| == k && t.Elem? && Plug(ctx, t) == n
            && Inner(ctx) <= p <= Inner(ctx) + SizeOf(t.content)
    decreases k
  {
    if k > 0 {
      var (index, offset) := FindIndex(n.content, p);
      DescendStep(n, p, start, index, offset);
      var child := n.content[index];
      DecomposeAt(child, p - offset - 1, start + offset + 1, k - 1);
      var rest := PathCtx(child, p - offset - 1, k - 1);
      var t := ResolveIn(n, p, start).0[k].node;
      assert t == ResolveIn(child, p - offset - 1, start + offset + 1).0[k - 1].node;
      PlugCons(FrameAt(n, index), rest, t);
    }
  }

  /** Two ways of cutting a child out of the same node: the one further
      left ends before the other begins. */
  lemma FrameOrder(f1: Frame, c1: Node, f2: Frame, c2: Node)
    requires Fill(f1, c1) == Fill(f2, c2) && |f1.left| < |f2.left|
    ensures SizeOf(f1.left) + Size(c1) <= SizeOf(f2.left)
  {
    var cs, a, b := Fill(f1, c1).content, |f1.left|, |f2.left|;
    assert cs[..a] == f1.left && cs[a] == c1;
    assert cs[..b] == f2.left;
    SizeOfSnoc(cs, a);
    SizeOfPrefixMono(cs, a + 1, b);
  }

  /** Two ways of cutting the same child out of the same node agree. */
  lemma FrameSame(f1: Frame, c1: Node, f2: Frame, c2: Node)
    requires Fill(f1, c1) == Fill(f2, c2) && |f1.left| == |f2.left|
    ensures f1 == f2 && c1 == c2
  {
    var cs, a := Fill(f1, c1).content, |f1.left|;
    assert cs[..a] == f1.left == f2.left && cs[a] == c1 == c2;
    assert cs[a + 1..] == f1.right == f2.right;
  }

  /** A node is determined by where its content starts: two frame stacks
      around element nodes that give the same document and put the nodes'
      content at the same position are the same stack around the same
      node. */
  lemma {:induction false} PlugUnique(ctx1: seq<Frame>, t1: Node, ctx2: seq<Frame>, t2: Node)
    requires t1.Elem? && t2.Elem?
    requires Plug(ctx1, t1) == Plug(ctx2, t2) && Inner(ctx1) == Inner(ctx2)
    ensures ctx1 == ctx2 && t1 == t2
    decreases |ctx1|
  {
    if ctx1 != [] && ctx2 != [] {
      var f1, r1, f2, r2 := ctx1[0], ctx1[1..], ctx2[0], ctx2[1..];
      assert ctx1 == [f1] + r1 && ctx2 == [f2] + r2;
      PlugCons(f1, r1, t1);
      PlugCons(f2, r2, t2);
      var c1, c2 := Plug(r1, t1), Plug(r2, t2);
      if |f1.left| < |f2.left| {
        FrameOrder(f1, c1, f2, c2);
        assert false;
      } else if |f2.left| < |f1.left| {
        FrameOrder(f2, c2, f1, c1);
        assert false;
      } else {
        FrameSame(f1, c1, f2, c2);
        PlugUnique(r1, t1, r2, t2);
      }
    }
  }

  /** `DecomposeAt` with its results named. */
  lemma Decompose(n: Node, p: int, start: int, k: nat, ctx: seq<Frame>, t: Node)
    requires n.Elem? && 0 <= p <= SizeOf(n.content)
    requires k < |ResolveIn(n, p, start).0|
    requires ctx == PathCtx(n, p, k) && t == ResolveIn(n, p, start).0[k].node
    ensures |ctx| == k && t.Elem? && Plug(ctx, t) == n
    ensures Inner(ctx) <= p <= Inner(ctx) + SizeOf(t.content)
  {
    DecomposeAt(n, p, start, k);
  }

  /** `PlugPath` for a document and position given by value. */
  lemma PlugPathAt(ctx: seq<Frame>, t: Node, q: int, start: int, inner: int, root: Node, p: int)
    requires t.Elem? && 0 <= q <= SizeOf(t.content) && inner == start + Inner(ctx)
    requires root == Plug(ctx, t) && p == Inner(ctx) + q
    ensures root.Elem? && 0 <= p <= SizeOf(root.content)
    ensures ResolveIn(root, p, start).0 == Levels(ctx, t, start) + ResolveIn(t, q, inner).0
  {
    PlugPath(ctx, t, q, start, inner);
  }

  /** A resolved position split at depth `k`: the levels of the frames
      above, then the local resolution inside the node at depth `k`, at
      offset `q` of its content, which starts at absolute position `inner`. */
  lemma ResolveThrough(n: Node, p: int, start: int, k: nat, ctx: seq<Frame>, t: Node, q: int, inner: int)
    requires n.Elem? && 0 <= p <= SizeOf(n.content)
    requires k < |ResolveIn(n, p, start).0|
    requires ctx == PathCtx(n, p, k) && t == ResolveIn(n, p, start).0[k].node
    requires q == p - Inner(ctx) && inner == start + Inner(ctx)
    ensures |ctx| == k && t.Elem? && Plug(ctx, t) == n
    ensures 0 <= q <= SizeOf(t.content)
    ensures ResolveIn(n, p, start).0 == Levels(ctx, t, start) + ResolveIn(t, q, inner).0
  {
    Decompose(n, p, start, k, ctx, t);
    PlugPathAt(ctx, t, q, start, inner, n, p);
  }
  /** The frames `NodeAt` descends through on its way to the node it
      returns, the root's first: an element found at `p` sits in them, and
      its content starts just after `p`. */
  function FramesTo(n: Node, p: int): (ctx: seq<Frame>)
    requires n.Elem? && 0 <= p <= SizeOf(n.content)
    ensures NodeAt(n, p).Some? && NodeAt(n, p).value.Elem? ==>
              && |ctx| >= 1 && Plug(ctx, NodeAt(n, p).value) == n && Inner(ctx) == p + 1
    decreases n
  {
    FindIndexSpec(n.content, p);
    var (index, offset) := FindIndex(n.content, p);
    if index >= |n.content| then []
    else
      var child := n.content[index];
      if offset == p || !child.Elem? then
        assert NodeAt(n, p) == Some(child) && [FrameAt(n, index)] + [] == [FrameAt(n, index)];
        FrameAround(n, index, [], child);
        [FrameAt(n, index)]
      else
        var q := p - offset - 1;
        var inner := FramesTo(child, q);
        assert NodeAt(n, p) == NodeAt(child, q);
        if NodeAt(child, q).Some? && NodeAt(child, q).value.Elem? then
          FrameAround(n, index, inner, NodeAt(child, q).value);
          [FrameAt(n, index)] + inner
        else
          [FrameAt(n, index)] + inner
  }

  /** One more frame around a plugged child of `n` gives back `n`. */
  lemma FrameAround(n: Node, index: nat, ctx: seq<Frame>, t: Node)
    requires n.Elem? && index < |n.content| && Plug(ctx, t) == n.content[index]
    ensures Plug([FrameAt(n, index)] + ctx, t) == n
    ensures Inner([FrameAt(n, index)] + ctx) == SizeOf(n.content[..index]) + 1 + Inner(ctx)
  {
    PlugCons(FrameAt(n, index), ctx, t);
  }
}

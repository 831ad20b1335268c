/** The slice of the document model that the table steps rely on: immutable
    nodes, their size in flat positions, `Fragment.findIndex`,
    `Node.resolve` with the accessors of a resolved position, and
    `Node.nodeAt`. */
module DocModel {
  import opened Outcomes

  /** Attribute values are numbers: the only attribute the steps read or
      write is the numeric `columns`. `NaN` is what JavaScript arithmetic
      yields on a missing attribute. */
  datatype Value = Num(n: int) | NaN

  type Attrs = map<string, Value>

  /** A text node, a leaf node (one position wide), or a node with content.
      Marks are not modelled. */
  datatype Node =
    | Text(text: string)
    | Atom(nodeType: string, attrs: Attrs)
    | Elem(nodeType: string, attrs: Attrs, content: seq<Node>)

  /** `nodeSize`: the length of a text, one for a leaf, and two boundary
      tokens around the content of any other node. */
  function Size(n: Node): nat
    decreases n, 1
  {
    match n
    case Text(s) => |s|
    case Atom(_, _) => 1
    case Elem(_, _, content) => 2 + SizeOf(content)
  }

  /** `Fragment.size`: the summed size of a sequence of siblings. */
  function SizeOf(cs: seq<Node>): nat
    decreases cs, 0
  {
    if cs == [] then 0 else Size(cs[0]) + SizeOf(cs[1..])
  }

  /** `node.content` as a sequence: text and leaf nodes have none. */
  function Children(n: Node): seq<Node>
  {
    if n.Elem? then n.content else []
  }

  lemma {:induction false} SizeOfConcat(a: seq<Node>, b: seq<Node>)
    ensures SizeOf(a + b) == SizeOf(a) + SizeOf(b)
    decreases |a|
  {
    if a == [] {
      assert a + b == b;
    } else {
      assert (a + b)[1..] == a[1..] + b;
      SizeOfConcat(a[1..], b);
    }
  }

  lemma SizeOfSingle(n: Node)
    ensures SizeOf([n]) == Size(n)
  {
    assert [n][1..] == [];
  }

  lemma SizeOfSnoc(cs: seq<Node>, i: int)
    requires 0 <= i < |cs|
    ensures SizeOf(cs[..i + 1]) == SizeOf(cs[..i]) + Size(cs[i])
  {
    assert cs[..i + 1] == cs[..i] + [cs[i]];
    SizeOfConcat(cs[..i], [cs[i]]);
    SizeOfSingle(cs[i]);
  }

  lemma SizeOfPrefixMono(cs: seq<Node>, i: int, j: int)
    requires 0 <= i <= j <= |cs|
    ensures SizeOf(cs[..i]) <= SizeOf(cs[..j])
  {
    assert cs[..j] == cs[..i] + cs[i..j];
    SizeOfConcat(cs[..i], cs[i..j]);
  }

  lemma SizeOfAround(cs: seq<Node>, i: int)
    requires 0 <= i < |cs|
    ensures SizeOf(cs) == SizeOf(cs[..i]) + Size(cs[i]) + SizeOf(cs[i + 1..])
  {
    assert cs == cs[..i + 1] + cs[i + 1..];
    SizeOfConcat(cs[..i + 1], cs[i + 1..]);
    SizeOfSnoc(cs, i);
  }

  /** Every sibling takes up at least one position. The document model
      never holds an empty text node, and every other node is at least one
      position wide. */
  predicate Positive(cs: seq<Node>)
  {
    forall k :: 0 <= k < |cs| ==> Size(cs[k]) > 0
  }

  lemma SizeOfPrefixStrict(cs: seq<Node>, i: int, j: int)
    requires Positive(cs) && 0 <= i < j <= |cs|
    ensures SizeOf(cs[..i]) < SizeOf(cs[..j])
  {
    SizeOfSnoc(cs, i);
    SizeOfPrefixMono(cs, i + 1, j);
  }

  // ---------------------------------------------------------------------
  // Fragment.findIndex

  lemma PrefixAfterHead(cs: seq<Node>, k: int)
    requires 0 <= k < |cs|
    ensures SizeOf(cs[..k + 1]) == Size(cs[0]) + SizeOf(cs[1..][..k])
  {
    assert cs[..k + 1][1..] == cs[1..][..k];
  }

  /** The scanning loop of `findIndex` for a position strictly inside the
      fragment: walk the children until one ends at or after `p`. */
  function Scan(cs: seq<Node>, p: int): (nat, int)
    requires 0 < p < SizeOf(cs)
    decreases |cs|
  {
    var end := Size(cs[0]);
    if end >= p then
      if end == p then (1, end) else (0, 0)
    else
      var r := Scan(cs[1..], p - end);
      (r.0 + 1, r.1 + end)
  }

  lemma {:induction false} ScanSpec(cs: seq<Node>, p: int)
    requires 0 < p < SizeOf(cs)
    ensures var r := Scan(cs, p);
            && r.0 <= |cs| && r.1 == SizeOf(cs[..r.0])
            && (r.1 == p || (r.0 < |cs| && r.1 < p < r.1 + Size(cs[r.0])))
    decreases |cs|
  {
    var end := Size(cs[0]);
    if end >= p {
      PrefixAfterHead(cs, 0);
    } else {
      ScanSpec(cs[1..], p - end);
      var r := Scan(cs[1..], p - end);
      PrefixAfterHead(cs, r.0);
      assert r.0 < |cs[1..]| ==> cs[1..][r.0] == cs[r.0 + 1];
    }
  }

  /** `Fragment.findIndex(p)`: the index of the child that starts at or
      contains `p`, with the position where that child starts. A position
      on a boundary gets the index of the child after it. */
  function FindIndex(cs: seq<Node>, p: int): (nat, int)
    requires 0 <= p <= SizeOf(cs)
  {
    if p == 0 then (0, 0)
    else if p == SizeOf(cs) then (|cs|, p)
    else Scan(cs, p)
  }

  lemma FindIndexSpec(cs: seq<Node>, p: int)
    requires 0 <= p <= SizeOf(cs)
    ensures var r := FindIndex(cs, p);
            && r.0 <= |cs| && r.1 == SizeOf(cs[..r.0])
            && (r.1 == p || (r.0 < |cs| && r.1 < p < r.1 + Size(cs[r.0])))
  {
    if p == 0 {
    } else if p == SizeOf(cs) {
      assert cs[..|cs|] == cs;
    } else {
      ScanSpec(cs, p);
    }
  }

  /** A position strictly inside child `i` finds child `i`. */
  lemma FindIndexInside(cs: seq<Node>, i: int, p: int)
    requires 0 <= i < |cs|
    requires SizeOf(cs[..i]) < p < SizeOf(cs[..i]) + Size(cs[i])
    ensures 0 <= p <= SizeOf(cs)
    ensures FindIndex(cs, p) == (i, SizeOf(cs[..i]))
  {
    SizeOfAround(cs, i);
    FindIndexSpec(cs, p);
    var r := FindIndex(cs, p);
    if r.0 < i {
      SizeOfSnoc(cs, r.0);
      SizeOfPrefixMono(cs, r.0 + 1, i);
      SizeOfPrefixMono(cs, r.0, i);
    } else if r.0 > i {
      SizeOfSnoc(cs, i);
      SizeOfPrefixMono(cs, i + 1, r.0);
    }
  }

  /** Between positive-sized children, the boundary before child `j`
      finds child `j`. */
  lemma FindIndexBoundary(cs: seq<Node>, j: int)
    requires Positive(cs) && 0 <= j <= |cs|
    ensures 0 <= SizeOf(cs[..j]) <= SizeOf(cs)
    ensures FindIndex(cs, SizeOf(cs[..j])) == (j, SizeOf(cs[..j]))
  {
    SizeOfPrefixMono(cs, j, |cs|);
    assert cs[..|cs|] == cs;
    var p := SizeOf(cs[..j]);
    FindIndexSpec(cs, p);
    var r := FindIndex(cs, p);
    if r.0 < j {
      SizeOfSnoc(cs, r.0);
      SizeOfPrefixMono(cs, r.0 + 1, j);
      SizeOfPrefixStrict(cs, r.0, j);
    } else if r.0 > j {
      SizeOfPrefixStrict(cs, j, r.0);
    }
  }

  // ---------------------------------------------------------------------
  // Node.resolve

  /** One depth of a resolved position: the node at that depth, the index
      of the child the position points at, and the absolute position where
      that child starts. */
  datatype Level = Level(node: Node, index: nat, childStart: int)

  /** The resolution loop of `ResolvedPos.resolve`, started inside the
      content of `n` (which begins at absolute position `start`) at content
      offset `p`. It descends into a child only when the position is
      strictly inside it and the child is not text. The second component is
      the offset inside the deepest node. */
  function ResolveIn(n: Node, p: int, start: int): (r: (seq<Level>, int))
    requires n.Elem? && 0 <= p <= SizeOf(n.content)
    ensures |r.0| >= 1 && r.0[0].node == n
    ensures forall k :: 0 <= k < |r.0| ==> r.0[k].node.Elem?
    decreases n
  {
    FindIndexSpec(n.content, p);
    var (index, offset) := FindIndex(n.content, p);
    var here := Level(n, index, start + offset);
    if p == offset then ([here], p)
    else
      var child := n.content[index];
      if !child.Elem? then ([here], p)
      else
        var inner := ResolveIn(child, p - offset - 1, start + offset + 1);
        ([here] + inner.0, inner.1)
  }

  /** One step of the resolution loop: a position strictly inside a child
      that is not text descends into that child. */
  lemma ResolveInDescends(n: Node, p: int, start: int, i: int)
    requires n.Elem? && 0 <= p <= SizeOf(n.content) && 0 <= i < |n.content|
    requires SizeOf(n.content[..i]) < p < SizeOf(n.content[..i]) + Size(n.content[i])
    requires n.content[i].Elem?
    ensures 0 <= p - SizeOf(n.content[..i]) - 1 <= SizeOf(n.content[i].content)
    ensures var o := SizeOf(n.content[..i]);
            var inner := ResolveIn(n.content[i], p - o - 1, start + o + 1);
            ResolveIn(n, p, start) == ([Level(n, i, start + o)] + inner.0, inner.1)
  {
    FindIndexInside(n.content, i, p);
  }

  /** A position on the boundary before child `j`, between positive-sized
      children, stops the resolution loop at this depth. */
  lemma ResolveInStops(n: Node, j: int, start: int)
    requires n.Elem? && Positive(n.content) && 0 <= j <= |n.content|
    ensures 0 <= SizeOf(n.content[..j]) <= SizeOf(n.content)
    ensures var o := SizeOf(n.content[..j]);
            ResolveIn(n, o, start) == ([Level(n, j, start + o)], o)
  {
    FindIndexBoundary(n.content, j);
  }

  /** A resolved position: `path[d]` describes depth `d`; depth 0 is the
      document. */
  datatype ResolvedPos = ResolvedPos(pos: int, path: seq<Level>, parentOffset: int)
  {
    /** `$pos.depth` */
    function Depth(): int { |path| - 1 }

    /** `$pos.node(d)` */
    function NodeAtDepth(d: int): Node
      requires 0 <= d < |path|
    {
      path[d].node
    }

    /** `$pos.index(d)` */
    function IndexAt(d: int): nat
      requires 0 <= d < |path|
    {
      path[d].index
    }

    /** `$pos.before(d)`: the position just before the node at depth `d`. */
    function Before(d: int): int
      requires 1 <= d < |path|
    {
      path[d - 1].childStart
    }

    /** `$pos.nodeAfter`: the child after the position in its parent, the
        rest of it when the position is inside a text node, or nothing at
        the end of the parent. */
    function NodeAfter(): Option<Node>
      requires |path| >= 1
    {
      var level := path[|path| - 1];
      var parent := level.node;
      if !parent.Elem? || level.index >= |parent.content| then None
      else
        var child := parent.content[level.index];
        var dOff := pos - level.childStart;
        if dOff > 0 && child.Text? && dOff <= |child.text| then Some(Text(child.text[dOff..]))
        else Some(child)
    }
  }

  /** `doc.resolve(pos)`, which throws a `RangeError` outside the document. */
  function Resolve(doc: Node, pos: int): (r: Result<ResolvedPos>)
    requires doc.Elem?
    ensures r.Ok? <==> 0 <= pos <= SizeOf(doc.content)
    ensures r.Ok? ==> r.value.pos == pos && |r.value.path| >= 1 && r.value.path[0].node == doc
    ensures r.Ok? ==> forall k :: 0 <= k < |r.value.path| ==> r.value.path[k].node.Elem?
  {
    if 0 <= pos <= SizeOf(doc.content) then
      var res := ResolveIn(doc, pos, 0);
      Ok(ResolvedPos(pos, res.0, res.1))
    else
      Err(Thrown("RangeError: Position out of range"))
  }

  /** `node.nodeAt(pos)`: the outermost node that starts at `pos`, or the
      text node around it; nothing at the end of a node's content. */
  function NodeAt(n: Node, p: int): Option<Node>
    requires n.Elem? && 0 <= p <= SizeOf(n.content)
    decreases n
  {
    FindIndexSpec(n.content, p);
    var (index, offset) := FindIndex(n.content, p);
    if index >= |n.content| then None
    else
      var child := n.content[index];
      if offset == p || !child.Elem? then Some(child)
      else NodeAt(child, p - offset - 1)
  }
}

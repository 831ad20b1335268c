/** The JSON form of the two column steps: `toJSON`, the registry that
    `Step.jsonID` fills, and `fromJSON`. Nodes travel in a self-describing
    form (`type`, `attrs`, and either `text` or `content`), so that a cell
    captured by a step comes back as the same node. */
module StepJson {
  import opened Outcomes
  import opened JsonValues
  import opened DocModel
  import opened TableSpec

  /** The identifiers registered for the two step classes. */
  const AddId := "addTableColumn"
  const RemoveId := "removeTableColumn"

  /** The registered identifier of a step's class. */
  function StepId(step: Step): (id: string)
    ensures id == AddId <==> step.AddColumn?
    ensures id == RemoveId <==> step.RemoveColumn?
  {
    if step.AddColumn? then AddId else RemoveId
  }

  /** What `Step.fromJSON` throws on an identifier nobody registered. */
  function UnknownStepType(): Error
  {
    Thrown("RangeError: No step type defined")
  }

  /** What reading a field of the wrong shape throws. */
  function Malformed(): Error
  {
    Thrown("TypeError: malformed JSON")
  }

  // ---------------------------------------------------------------------
  // Attribute values and attributes

  /** A number stays a number; `NaN` serialises as `null`. */
  function ValueToJson(v: Value): Json
  {
    match v
    case Num(n) => JNum(n)
    case NaN => JNull
  }

  predicate IsValue(j: Json)
  {
    j.JNum? || j.JNull?
  }

  function ValueOf(j: Json): Value
  {
    if j.JNum? then Num(j.n) else NaN
  }

  function AttrsToJson(attrs: Attrs): Json
  {
    JObj(map k | k in attrs :: ValueToJson(attrs[k]))
  }

  function AttrsFromJson(j: Json): (r: Result<Attrs>)
    ensures r.Ok? <==> j.JObj? && forall k :: k in j.fields ==> IsValue(j.fields[k])
    ensures r.Ok? ==> r.value.Keys == j.fields.Keys
  {
    if j.JObj? && forall k :: k in j.fields ==> IsValue(j.fields[k]) then
      Ok(map k | k in j.fields :: ValueOf(j.fields[k]))
    else
      Err(Malformed())
  }

  lemma AttrsRoundTrip(attrs: Attrs)
    ensures AttrsFromJson(AttrsToJson(attrs)) == Ok(attrs)
  {
    var j := AttrsToJson(attrs);
    forall k | k in j.fields
      ensures IsValue(j.fields[k]) && ValueOf(j.fields[k]) == attrs[k]
    {
    }
    assert AttrsFromJson(j).value == attrs;
  }

  // ---------------------------------------------------------------------
  // Nodes

  /** `node.toJSON()`: a text node carries its text, a leaf its attributes,
      any other node its attributes and its content. */
  function NodeToJson(n: Node): Json
  {
    match n
    case Text(s) => JObj(map["type" := JStr("text"), "text" := JStr(s)])
    case Atom(t, attrs) => JObj(map["type" := JStr(t), "attrs" := AttrsToJson(attrs)])
    case Elem(t, attrs, content) =>
      JObj(map["type" := JStr(t), "attrs" := AttrsToJson(attrs),
               "content" := JArr(seq(|content|, i requires 0 <= i < |content| => NodeToJson(content[i])))])
  }

  /** `schema.nodeFromJSON`: a `text` field makes a text node, a `content`
      field a node with content, neither a leaf; a missing `attrs` is an
      empty set of attributes. */
  function NodeFromJson(j: Json): (r: Result<Node>)
    ensures r.Ok? ==> j.JObj? && "type" in j.fields
    decreases j, 1
  {
    if !j.JObj? || "type" !in j.fields || !j.fields["type"].JStr? then Err(Malformed())
    else if "text" in j.fields then
      if j.fields["text"].JStr? then Ok(Text(j.fields["text"].s)) else Err(Malformed())
    else
      var attrs := if "attrs" in j.fields then AttrsFromJson(j.fields["attrs"]) else Ok(map[]);
      if attrs.Err? then Err(attrs.error)
      else if "content" !in j.fields then Ok(Atom(j.fields["type"].s, attrs.value))
      else match j.fields["content"]
        case JArr(items) =>
          var content := NodesFromJson(items);
          if content.Err? then Err(content.error)
          else Ok(Elem(j.fields["type"].s, attrs.value, content.value))
        case _ => Err(Malformed())
  }

  /** Decodes a list of nodes, failing on the first that does not decode. */
  function NodesFromJson(items: seq<Json>): (r: Result<seq<Node>>)
    ensures r.Ok? ==> |r.value| == |items|
    decreases items, 0
  {
    if items == [] then Ok([])
    else
      var first := NodeFromJson(items[0]);
      if first.Err? then Err(first.error)
      else
        var rest := NodesFromJson(items[1..]);
        if rest.Err? then Err(rest.error) else Ok([first.value] + rest.value)
  }

  /** Every node comes back from its JSON form unchanged. */
  lemma {:induction false} NodeRoundTrip(n: Node)
    ensures NodeFromJson(NodeToJson(n)) == Ok(n)
    decreases n, 1
  {
    match n
    case Text(s) =>
    case Atom(t, attrs) =>
      AttrsRoundTrip(attrs);
    case Elem(t, attrs, content) =>
      AttrsRoundTrip(attrs);
      NodesRoundTrip(content);
  }

  lemma {:induction false} NodesRoundTrip(cs: seq<Node>)
    ensures NodesFromJson(seq(|cs|, i requires 0 <= i < |cs| => NodeToJson(cs[i]))) == Ok(cs)
    decreases cs, 0
  {
    var items := seq(|cs|, i requires 0 <= i < |cs| => NodeToJson(cs[i]));
    if cs != [] {
      NodeRoundTrip(cs[0]);
      NodesRoundTrip(cs[1..]);
      assert items[1..] == seq(|cs[1..]|, i requires 0 <= i < |cs[1..]| => NodeToJson(cs[1..][i]));
      assert [cs[0]] + cs[1..] == cs;
    }
  }

  // ---------------------------------------------------------------------
  // Steps

  function IntsToJson(xs: seq<int>): Json
  {
    JArr(seq(|xs|, i requires 0 <= i < |xs| => JNum(xs[i])))
  }

  function IntsFromJson(j: Json): (r: Result<seq<int>>)
    ensures r.Ok? <==> j.JArr? && forall i :: 0 <= i < |j.items| ==> j.items[i].JNum?
    ensures r.Ok? ==> |r.value| == |j.items|
  {
    if j.JArr? && forall i :: 0 <= i < |j.items| ==> j.items[i].JNum? then
      Ok(seq(|j.items|, i requires 0 <= i < |j.items| => j.items[i].n))
    else
      Err(Malformed())
  }

  lemma IntsRoundTrip(xs: seq<int>)
    ensures IntsFromJson(IntsToJson(xs)) == Ok(xs)
  {
    assert IntsFromJson(IntsToJson(xs)).value == xs;
  }

  /** `AddColumnStep.toJSON`, and for `RemoveColumnStep`, which defines
      none, the inherited `Step.toJSON` that copies its own fields. */
  function StepToJson(step: Step): Json
  {
    match step
    case AddColumn(positions, cells) =>
      JObj(map["stepType" := JStr(AddId), "positions" := IntsToJson(positions),
               "cells" := JArr(seq(|cells|, i requires 0 <= i < |cells| => NodeToJson(cells[i])))])
    case RemoveColumn(from, to) =>
      JObj(map["stepType" := JStr(RemoveId), "from" := IntsToJson(from), "to" := IntsToJson(to)])
  }

  /** `Step.fromJSON`: look the identifier up in the registry and hand the
      object to that class's `fromJSON`. */
  function StepFromJson(j: Json): (r: Result<Step>)
    ensures r.Ok? ==> j.JObj? && "stepType" in j.fields && j.fields["stepType"] == JStr(StepId(r.value))
    ensures j.JObj? && (("stepType" !in j.fields) || j.fields["stepType"] !in {JStr(AddId), JStr(RemoveId)})
            ==> r == Err(UnknownStepType())
  {
    if !j.JObj? then Err(Malformed())
    else if "stepType" in j.fields && j.fields["stepType"] == JStr(AddId) then AddFromJson(j.fields)
    else if "stepType" in j.fields && j.fields["stepType"] == JStr(RemoveId) then RemoveFromJson(j.fields)
    else Err(UnknownStepType())
  }

  /** `AddColumnStep.fromJSON`: the positions as given, the cells through
      the node decoder. */
  function AddFromJson(fields: map<string, Json>): (r: Result<Step>)
    ensures r.Ok? ==> r.value.AddColumn?
  {
    if "positions" !in fields || "cells" !in fields || !fields["cells"].JArr? then Err(Malformed())
    else
      var positions := IntsFromJson(fields["positions"]);
      var cells := NodesFromJson(fields["cells"].items);
      if positions.Err? then Err(positions.error)
      else if cells.Err? then Err(cells.error)
      else Ok(AddColumn(positions.value, cells.value))
  }

  /** `RemoveColumnStep.fromJSON`: the two position arrays as given. */
  function RemoveFromJson(fields: map<string, Json>): (r: Result<Step>)
    ensures r.Ok? ==> r.value.RemoveColumn?
  {
    if "from" !in fields || "to" !in fields then Err(Malformed())
    else
      var from := IntsFromJson(fields["from"]);
      var to := IntsFromJson(fields["to"]);
      if from.Err? then Err(from.error)
      else if to.Err? then Err(to.error)
      else Ok(RemoveColumn(from.value, to.value))
  }

  /** Every step comes back from its JSON form unchanged, so the decoded
      step applies, inverts and maps exactly as the original did. */
  lemma StepRoundTrip(step: Step)
    ensures StepFromJson(StepToJson(step)) == Ok(step)
  {
    match step
    case AddColumn(positions, cells) =>
      IntsRoundTrip(positions);
      NodesRoundTrip(cells);
    case RemoveColumn(from, to) =>
      IntsRoundTrip(from);
      IntsRoundTrip(to);
  }
}

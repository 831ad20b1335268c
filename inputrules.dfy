/** The input-rule engine: the `appliedInputRule` state field, the string
    handler, the first-match-wins loop of `handleTextInput`, and the
    backspace undo of `maybeUndoInputRule`.

    The document the rules see is the textblock the cursor is in, as a
    sequence of one-position inline nodes (characters of text and leaf
    nodes); a position is an offset into that textblock. Edits are
    replacements of a range by inline content, and a transform records
    each edit with the document it was applied to. */
module InputRules {
  import opened Outcomes

  // ---------------------------------------------------------------------
  // Textblock content, edits and transforms

  /** A character of text, or a leaf node such as an image. */
  datatype Inline = Ch(c: char) | Leaf(nodeType: string)

  type Doc = seq<Inline>

  /** `MAX_MATCH`: how many characters before the cursor a rule can see. */
  const MaxMatch := 100

  /** How `textBetween` renders a leaf node. */
  const LeafText: char := '\U{FFFC}'

  function Render(n: Inline): char
  {
    if n.Ch? then n.c else LeafText
  }

  /** `parent.textBetween(from, to, null, "\ufffc")`. */
  function TextBetween(doc: Doc, from: nat, to: nat): (s: string)
    requires from <= to <= |doc|
    ensures |s| == to - from
  {
    seq(to - from, i requires 0 <= i < to - from => Render(doc[from + i]))
  }

  /** The text nodes that `schema.text(s)` makes, one inline per character. */
  function Chars(s: string): (d: Doc)
    ensures |d| == |s|
  {
    seq(|s|, i requires 0 <= i < |s| => Ch(s[i]))
  }

  /** `schema.text(s)`, which refuses the empty string. */
  function TextNode(s: string): (r: Result<Doc>)
    ensures r.Ok? <==> s != ""
    ensures r.Ok? ==> r.value == Chars(s)
  {
    if s == "" then Err(Thrown("RangeError: Empty text nodes are not allowed")) else Ok(Chars(s))
  }

  /** A replace step: the range `[from, to)` becomes `insert`. */
  datatype Edit = Edit(from: int, to: int, insert: Doc)

  function OutOfRange(): Error
  {
    Thrown("RangeError: Position out of range")
  }

  function ApplyEdit(e: Edit, doc: Doc): (r: Result<Doc>)
    ensures r.Ok? <==> 0 <= e.from <= e.to <= |doc|
    ensures r.Ok? ==> |r.value| == |doc| - (e.to - e.from) + |e.insert|
  {
    if 0 <= e.from <= e.to <= |doc| then Ok(doc[..e.from] + e.insert + doc[e.to..]) else Err(OutOfRange())
  }

  /** `step.invert(doc)`: put back what the range held in `doc`. */
  function InvertEdit(e: Edit, doc: Doc): (r: Result<Edit>)
    ensures r.Ok? <==> 0 <= e.from <= e.to <= |doc|
  {
    if 0 <= e.from <= e.to <= |doc| then Ok(Edit(e.from, e.from + |e.insert|, doc[e.from..e.to]))
    else Err(OutOfRange())
  }

  /** A transform: the steps taken so far, the document before each, and
      the current document. */
  datatype Transform = Transform(docs: seq<Doc>, steps: seq<Edit>, doc: Doc)

  /** `state.tr`: a transform that has done nothing yet. */
  function Start(doc: Doc): Transform
  {
    Transform([], [], doc)
  }

  /** The document a transform started from. */
  function Before(tr: Transform): Doc
  {
    if tr.docs == [] then tr.doc else tr.docs[0]
  }

  /** The document before step `i`, or the current one for `i` past the
      last step. */
  function DocAt(tr: Transform, i: nat): Doc
    requires i <= |tr.docs|
  {
    if i < |tr.docs| then tr.docs[i] else tr.doc
  }

  /** Each recorded step took its recorded document to the next one. */
  predicate Valid(tr: Transform)
  {
    && |tr.docs| == |tr.steps|
    && forall i :: 0 <= i < |tr.steps| ==> ApplyEdit(tr.steps[i], tr.docs[i]) == Ok(DocAt(tr, i + 1))
  }

  /** `tr.step(e)`: apply the step to the current document and record it,
      or throw when it does not apply. */
  function AddStep(tr: Transform, e: Edit): (r: Result<Transform>)
    ensures r.Ok? <==> ApplyEdit(e, tr.doc).Ok?
    ensures r.Ok? ==> r.value.doc == ApplyEdit(e, tr.doc).value && |r.value.steps| == |tr.steps| + 1
    ensures r.Ok? && Valid(tr) ==> Valid(r.value) && Before(r.value) == Before(tr)
  {
    match ApplyEdit(e, tr.doc)
    case Err(err) => Err(err)
    case Ok(next) =>
      var r := Transform(tr.docs + [tr.doc], tr.steps + [e], next);
      assert Valid(tr) ==> Valid(r) by {
        if Valid(tr) {
          forall i | 0 <= i < |r.steps|
            ensures ApplyEdit(r.steps[i], r.docs[i]) == Ok(DocAt(r, i + 1))
          {
            if i < |tr.steps| {
              assert r.steps[i] == tr.steps[i] && r.docs[i] == tr.docs[i];
              assert DocAt(r, i + 1) == DocAt(tr, i + 1);
            }
          }
        }
      }
      Ok(r)
  }

  /** `tr.replaceWith(from, to, schema.text(text))`. */
  function ReplaceWith(tr: Transform, from: int, to: int, text: string): (r: Result<Transform>)
    ensures r.Ok? <==> text != "" && 0 <= from <= to <= |tr.doc|
    ensures r.Ok? ==> r.value.doc == tr.doc[..from] + Chars(text) + tr.doc[to..]
    ensures r.Ok? ==> |r.value.steps| == |tr.steps| + 1
    ensures r.Ok? && Valid(tr) ==> Valid(r.value) && Before(r.value) == Before(tr)
  {
    match TextNode(text)
    case Err(err) => Err(err)
    case Ok(nodes) => AddStep(tr, Edit(from, to, nodes))
  }

  // ---------------------------------------------------------------------
  // Rules, the applied-rule record and the editor state

  /** What `RegExp.exec` returns: the whole match and capture group 1,
      which may be undefined. */
  datatype Match = Match(whole: string, group1: Option<string>)

  /** `if (match[1])`: the group took part and is not empty. */
  predicate HasGroup(m: Match)
  {
    m.group1.Some? && m.group1.value != ""
  }

  /** The record `{transform, from, to, text}` a fired rule leaves behind. */
  datatype Applied = Applied(transform: Transform, from: int, to: int, text: string)

  datatype EditorState = EditorState(doc: Doc, appliedInputRule: Option<Applied>)

  /** A rule's handler: a replacement string, or a function from
      `(state, match, start, end, realStart)` to a transform or nothing. */
  datatype Handler =
    | Literal(s: string)
    | Custom(f: (EditorState, Match, int, int, int) -> Option<Transform>)

  /** An input rule: the regular expression, as the function `exec`
      computes on a string, and the handler. */
  datatype Rule = Rule(exec: string -> Option<Match>, handler: Handler)

  /** An action as the editor dispatches it; a transform action may carry
      the record of the rule that produced it. */
  datatype Action =
    | TransformAction(transform: Transform, fromInputRule: Option<Applied>)
    | SelectionAction
    | OtherAction

  /** `appliedInputRule.init`. */
  function Init(): Option<Applied>
  {
    None
  }

  /** `appliedInputRule.applyAction`. */
  function ApplyAction(field: Option<Applied>, action: Action): Option<Applied>
  {
    match action
    case TransformAction(_, fromInputRule) => fromInputRule
    case SelectionAction => None
    case OtherAction => field
  }

  /** The session after an action: a transform action moves the document
      to the transform's result; the field follows `applyAction`. */
  function Dispatch(state: EditorState, action: Action): EditorState
  {
    EditorState(if action.TransformAction? then action.transform.doc else state.doc,
                ApplyAction(state.appliedInputRule, action))
  }

  /** The field after a session's actions, from `init`. */
  function FieldAfter(actions: seq<Action>): Option<Applied>
  {
    if actions == [] then Init()
    else ApplyAction(FieldAfter(actions[..|actions| - 1]), actions[|actions| - 1])
  }

  // ---------------------------------------------------------------------
  // stringHandler

  /** `Array.prototype.slice` on a string: negative indices count from the
      end, indices past the end stop there, and a reversed range is empty. */
  function Clamp(i: int, n: nat): (r: nat)
    ensures r <= n
  {
    if i < 0 then (if n + i < 0 then 0 else n + i) else if i > n then n else i
  }

  function JsSlice(s: string, a: int, b: int): (r: string)
    ensures 0 <= a <= b <= |s| ==> r == s[a..b]
  {
    var a', b' := Clamp(a, |s|), Clamp(b, |s|);
    if a' < b' then s[a'..b'] else ""
  }

  /** Where the replacement starts and what it inserts, as
      `stringHandler` computes them: with a group, only the group is
      replaced, and a group that starts past `realStart` (inside the text
      being typed) has the typed text before it prepended. */
  function TargetAsWritten(s: string, m: Match, start: int, realStart: int): (int, string)
  {
    if HasGroup(m) then
      var st := start + |m.whole| - |m.group1.value|;
      if st > realStart then (realStart, JsSlice(m.whole, st - realStart, |m.whole| - |m.group1.value|) + s)
      else (st, s)
    else (start, s)
  }

  /** `stringHandler` as written: the slice it prepends starts at
      `start - realStart`, the length of the typed text before the group,
      rather than at that text's offset in the match. */
  function StringHandlerAsWritten(s: string, state: EditorState, m: Match, start: int, end: int, realStart: int)
    : (r: Result<Transform>)
    ensures r.Ok? ==> Valid(r.value) && Before(r.value) == state.doc && |r.value.steps| == 1
  {
    var (st, insert) := TargetAsWritten(s, m, start, realStart);
    ReplaceWith(Start(state.doc), st, end, insert)
  }

  /** The same computation with the slice taken as the `start - realStart`
      characters that end where the group begins. */
  function Target(s: string, m: Match, start: int, realStart: int): (int, string)
  {
    if HasGroup(m) then
      var offset := |m.whole| - |m.group1.value|;
      var st := start + offset;
      if st > realStart then (realStart, JsSlice(m.whole, offset - (st - realStart), offset) + s)
      else (st, s)
    else (start, s)
  }

  /** `stringHandler`, corrected: one replace step from the state's
      document. */
  function StringHandler(s: string, state: EditorState, m: Match, start: int, end: int, realStart: int)
    : (r: Result<Transform>)
    ensures r.Ok? ==> Valid(r.value) && Before(r.value) == state.doc && |r.value.steps| == 1
  {
    var (st, insert) := Target(s, m, start, realStart);
    ReplaceWith(Start(state.doc), st, end, insert)
  }

  // ---------------------------------------------------------------------
  // handleTextInput

  /** The text a rule is matched against: up to `MaxMatch` characters of
      the textblock before `from`, leaves rendered as U+FFFC, then the
      typed text. */
  function TextBefore(doc: Doc, from: int, text: string): (r: string)
    requires 0 <= from <= |doc|
    ensures |r| == (if from < MaxMatch then from else MaxMatch) + |text|
    ensures r[|r| - |text|..] == text
  {
    var lo := if from - MaxMatch > 0 then from - MaxMatch else 0;
    TextBetween(doc, lo, from) + text
  }

  /** One rule's attempt: no match, a handler that declines, a transform,
      or the exception the handler threw. */
  function RunRule(rule: Rule, state: EditorState, from: int, to: int, text: string, window: string)
    : Result<Option<Transform>>
  {
    match rule.exec(window)
    case None => Ok(None)
    case Some(m) =>
      var start := from - (|m.whole| - |text|);
      match rule.handler
      case Literal(s) =>
        (match StringHandler(s, state, m, start, to, from)
         case Err(e) => Err(e)
         case Ok(tr) => Ok(Some(tr)))
      case Custom(f) => Ok(f(state, m, start, to, from))
  }

  /** The action dispatched for a rule's transform. */
  function RuleAction(tr: Transform, from: int, to: int, text: string): Action
  {
    TransformAction(tr, Some(Applied(tr, from, to, text)))
  }

  /** The rules from `i` on, in order, until one produces a transform. */
  function TextInputFrom(rules: seq<Rule>, state: EditorState, from: int, to: int, text: string,
                         window: string, i: nat): Result<Option<Action>>
    requires i <= |rules|
    decreases |rules| - i
  {
    if i == |rules| then Ok(None)
    else match RunRule(rules[i], state, from, to, text, window)
      case Err(e) => Err(e)
      case Ok(None) => TextInputFrom(rules, state, from, to, text, window, i + 1)
      case Ok(Some(tr)) => Ok(Some(RuleAction(tr, from, to, text)))
  }

  /** `handleTextInput`: `Ok(None)` where it returns false, `Ok(Some(a))`
      where it dispatches `a` and returns true. */
  function TextInput(rules: seq<Rule>, state: EditorState, from: int, to: int, text: string)
    : Result<Option<Action>>
  {
    if !(0 <= from <= |state.doc|) then Err(OutOfRange())
    else TextInputFrom(rules, state, from, to, text, TextBefore(state.doc, from, text), 0)
  }

  /** The rule loop of `handleTextInput`. */
  method HandleTextInput(rules: seq<Rule>, state: EditorState, from: int, to: int, text: string)
    returns (r: Result<Option<Action>>)
    ensures r == TextInput(rules, state, from, to, text)
  {
    if !(0 <= from <= |state.doc|) {
      return Err(OutOfRange());
    }
    var window := TextBefore(state.doc, from, text);
    var i := 0;
    while i < |rules|
      invariant 0 <= i <= |rules|
      invariant TextInputFrom(rules, state, from, to, text, window, i)
             == TextInputFrom(rules, state, from, to, text, window, 0)
      decreases |rules| - i
    {
      var attempt := RunRule(rules[i], state, from, to, text, window);
      if attempt.Err? {
        return Err(attempt.error);
      }
      if attempt.value.Some? {
        return Ok(Some(RuleAction(attempt.value.value, from, to, text)));
      }
      i := i + 1;
    }
    return Ok(None);
  }

  // ---------------------------------------------------------------------
  // Backspace undo

  /** The reverse loop of `maybeUndoInputRule` from step `i - 1` down:
      each recorded step inverted against the document it was applied to
      and added to `tr`. */
  function Rewind(tr: Transform, toUndo: Transform, i: nat): Result<Transform>
    requires i <= |toUndo.steps|
    decreases i
  {
    if i == 0 then Ok(tr)
    else if i - 1 >= |toUndo.docs| then Err(Thrown("TypeError: doc is undefined"))
    else match InvertEdit(toUndo.steps[i - 1], toUndo.docs[i - 1])
      case Err(e) => Err(e)
      case Ok(inverse) =>
        match AddStep(tr, inverse)
        case Err(e) => Err(e)
        case Ok(next) => Rewind(next, toUndo, i - 1)
  }

  /** `maybeUndoInputRule`: `Ok(None)` where it returns false, `Ok(Some(a))`
      where it dispatches `a` and returns true. */
  function UndoInputRule(state: EditorState): Result<Option<Action>>
  {
    match state.appliedInputRule
    case None => Ok(None)
    case Some(undoable) =>
      match Rewind(Start(state.doc), undoable.transform, |undoable.transform.steps|)
      case Err(e) => Err(e)
      case Ok(tr) =>
        match ReplaceWith(tr, undoable.from, undoable.to, undoable.text)
        case Err(e) => Err(e)
        case Ok(tr') => Ok(Some(TransformAction(tr', None)))
  }

  method MaybeUndoInputRule(state: EditorState) returns (r: Result<Option<Action>>)
    ensures r == UndoInputRule(state)
  {
    if state.appliedInputRule.None? {
      return Ok(None);
    }
    var undoable := state.appliedInputRule.value;
    var toUndo := undoable.transform;
    var tr := Start(state.doc);
    var i := |toUndo.steps|;
    while i > 0
      invariant 0 <= i <= |toUndo.steps|
      invariant Rewind(tr, toUndo, i) == Rewind(Start(state.doc), toUndo, |toUndo.steps|)
      decreases i
    {
      if i - 1 >= |toUndo.docs| {
        return Err(Thrown("TypeError: doc is undefined"));
      }
      var inverse := InvertEdit(toUndo.steps[i - 1], toUndo.docs[i - 1]);
      if inverse.Err? {
        return Err(inverse.error);
      }
      var next := AddStep(tr, inverse.value);
      if next.Err? {
        return Err(next.error);
      }
      tr := next.value;
      i := i - 1;
    }
    var last := ReplaceWith(tr, undoable.from, undoable.to, undoable.text);
    if last.Err? {
      return Err(last.error);
    }
    return Ok(Some(TransformAction(last.value, None)));
  }

  /** `handleKeyDown`: only backspace (key code 8) reaches the undo. */
  function KeyDown(keyCode: int, state: EditorState): (r: Result<Option<Action>>)
    ensures keyCode != 8 ==> r == Ok(None)
    ensures state.appliedInputRule.None? ==> r == Ok(None)
  {
    if keyCode == 8 then UndoInputRule(state) else Ok(None)
  }

  method HandleKeyDown(keyCode: int, state: EditorState) returns (r: Result<Option<Action>>)
    ensures r == KeyDown(keyCode, state)
  {
    if keyCode == 8 {
      r := MaybeUndoInputRule(state);
    } else {
      r := Ok(None);
    }
  }
}

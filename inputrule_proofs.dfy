/** What the input-rule engine promises: the pending record tracks the last
    rule-made transform until anything but an unrelated action; the first
    rule that produces a transform wins; the string handler replaces the
    match (or its group) with the string; and backspace right after a rule
    fired leaves the text as if the rule had never fired. */
module InputRuleProofs {
  import opened Outcomes
  import opened InputRules

  /** The textblock as plain typing would leave it: `[from, to)` replaced
      by the typed text. */
  function Typed(doc: Doc, from: int, to: int, text: string): (r: Doc)
    requires 0 <= from <= to <= |doc|
    ensures |r| == |doc| - (to - from) + |text|
  {
    doc[..from] + Chars(text) + doc[to..]
  }

  lemma CharsConcat(a: string, b: string)
    ensures Chars(a + b) == Chars(a) + Chars(b)
  {
    assert forall i :: 0 <= i < |a + b| ==> Chars(a + b)[i] == (Chars(a) + Chars(b))[i];
  }

  lemma CharsPrefix(a: string, n: nat)
    requires n <= |a|
    ensures Chars(a)[..n] == Chars(a[..n])
  {
  }

  // ---------------------------------------------------------------------
  // The applied-rule record

  /** After any sequence of actions, a record is pending exactly when some
      transform action carried one and every action since was neither a
      transform nor a selection change; the pending record is that one. */
  lemma {:induction false} PendingRecordIsLastRuleTransform(actions: seq<Action>)
    ensures FieldAfter(actions).Some? ==>
              exists i :: 0 <= i < |actions| && actions[i].TransformAction?
                          && FieldAfter(actions) == actions[i].fromInputRule
                          && forall j :: i < j < |actions| ==> actions[j].OtherAction?
    ensures (exists i :: 0 <= i < |actions| && actions[i].TransformAction? && actions[i].fromInputRule.Some?
                         && forall j :: i < j < |actions| ==> actions[j].OtherAction?)
            ==> FieldAfter(actions).Some?
  {
    if actions != [] {
      var n := |actions| - 1;
      var init := actions[..n];
      PendingRecordIsLastRuleTransform(init);
      assert forall j :: 0 <= j < n ==> init[j] == actions[j];
      if FieldAfter(actions).Some? {
        if !actions[n].TransformAction? {
          assert actions[n].OtherAction?;
          var i :| 0 <= i < n && init[i].TransformAction? && FieldAfter(init) == init[i].fromInputRule
                   && forall j :: i < j < n ==> init[j].OtherAction?;
          assert forall j :: i < j < |actions| ==> actions[j].OtherAction?;
        }
      }
      if exists i :: 0 <= i < |actions| && actions[i].TransformAction? && actions[i].fromInputRule.Some?
                     && forall j :: i < j < |actions| ==> actions[j].OtherAction? {
        var i :| 0 <= i < |actions| && actions[i].TransformAction? && actions[i].fromInputRule.Some?
                 && forall j :: i < j < |actions| ==> actions[j].OtherAction?;
        if i < n {
          assert init[i].TransformAction? && init[i].fromInputRule.Some?
                 && forall j :: i < j < n ==> init[j].OtherAction?;
        }
      }
    }
  }

  // ---------------------------------------------------------------------
  // First match wins

  /** What `handleTextInput` reports for a rule attempt that did not
      decline. */
  function Fired(attempt: Result<Option<Transform>>, from: int, to: int, text: string): Result<Option<Action>>
    requires attempt != Ok(None)
  {
    match attempt
    case Err(e) => Err(e)
    case Ok(tr) => Ok(Some(RuleAction(tr.value, from, to, text)))
  }

  /** Rules are tried in order: the loop reports nothing exactly when every
      rule declines. */
  lemma {:induction false} AllRulesDecline(rules: seq<Rule>, state: EditorState, from: int, to: int, text: string,
                                           window: string, i: nat)
    requires i <= |rules|
    ensures TextInputFrom(rules, state, from, to, text, window, i) == Ok(None)
            <==> forall j :: i <= j < |rules| ==> RunRule(rules[j], state, from, to, text, window) == Ok(None)
    decreases |rules| - i
  {
    if i < |rules| {
      var attempt := RunRule(rules[i], state, from, to, text, window);
      if attempt == Ok(None) {
        assert TextInputFrom(rules, state, from, to, text, window, i)
               == TextInputFrom(rules, state, from, to, text, window, i + 1);
        AllRulesDecline(rules, state, from, to, text, window, i + 1);
      } else {
        assert TextInputFrom(rules, state, from, to, text, window, i) == Fired(attempt, from, to, text);
      }
    }
  }

  /** Otherwise the first rule that does not decline decides the outcome:
      its exception, or its transform as the dispatched action. */
  lemma {:induction false} FirstRuleWins(rules: seq<Rule>, state: EditorState, from: int, to: int, text: string,
                                         window: string, i: nat)
    requires i <= |rules|
    ensures TextInputFrom(rules, state, from, to, text, window, i) != Ok(None) ==>
              exists k :: i <= k < |rules|
                          && (forall j :: i <= j < k ==> RunRule(rules[j], state, from, to, text, window) == Ok(None))
                          && RunRule(rules[k], state, from, to, text, window) != Ok(None)
                          && TextInputFrom(rules, state, from, to, text, window, i)
                             == Fired(RunRule(rules[k], state, from, to, text, window), from, to, text)
    decreases |rules| - i
  {
    if i < |rules| {
      var attempt := RunRule(rules[i], state, from, to, text, window);
      if attempt == Ok(None) {
        assert TextInputFrom(rules, state, from, to, text, window, i)
               == TextInputFrom(rules, state, from, to, text, window, i + 1);
        FirstRuleWins(rules, state, from, to, text, window, i + 1);
        if TextInputFrom(rules, state, from, to, text, window, i) != Ok(None) {
          var k :| i + 1 <= k < |rules|
                   && (forall j :: i + 1 <= j < k ==> RunRule(rules[j], state, from, to, text, window) == Ok(None))
                   && RunRule(rules[k], state, from, to, text, window) != Ok(None)
                   && TextInputFrom(rules, state, from, to, text, window, i + 1)
                      == Fired(RunRule(rules[k], state, from, to, text, window), from, to, text);
          assert forall j :: i <= j < k ==> RunRule(rules[j], state, from, to, text, window) == Ok(None);
        }
      } else {
        assert TextInputFrom(rules, state, from, to, text, window, i) == Fired(attempt, from, to, text);
      }
    }
  }

  // ---------------------------------------------------------------------
  // The string handler

  /** Where the corrected handler starts its replacement and what it
      inserts, for a match that ends with the typed text: `k` characters
      before the end of the typed text, and, when that lies inside the typed
      text, the typed text before it ahead of the string. */
  lemma TargetOfMatch(s: string, m: Match, from: int, text: string)
    requires |text| <= |m.whole| && m.whole[|m.whole| - |text|..] == text
    requires HasGroup(m) ==> |m.group1.value| <= |m.whole|
    ensures var k := if HasGroup(m) then |m.group1.value| else |m.whole|;
            var p := from + |text| - k;
            Target(s, m, from - (|m.whole| - |text|), from)
            == if p > from then (from, text[..p - from] + s) else (p, s)
  {
    if HasGroup(m) {
      var k := |m.group1.value|;
      var offset := |m.whole| - k;
      var c := |text| - k;
      if c > 0 {
        assert m.whole[offset - c..offset] == m.whole[|m.whole| - |text|..][..c];
      }
    }
  }

  /** The match, a suffix of the window, ends with the typed text, which
      ends the window. */
  lemma MatchEndsWithTyped(w: string, whole: string, text: string)
    requires |text| <= |whole| <= |w| && w[|w| - |whole|..] == whole && w[|w| - |text|..] == text
    ensures whole[|whole| - |text|..] == text
  {
    forall j | 0 <= j < |text|
      ensures whole[|whole| - |text| + j] == text[j]
    {
      assert whole[|whole| - |text| + j] == w[|w| - |text| + j];
    }
  }

  /** With the match ending where the typed text ends and covering it, the
      corrected handler succeeds with one step, and the textblock reads as
      typing would have left it up to the replaced part (group 1 when it
      took part, else the whole match), then the string, then the rest. */
  lemma StringHandlerReplacesMatch(s: string, state: EditorState, m: Match, from: int, to: int, text: string)
    requires 0 <= from <= to <= |state.doc| && s != ""
    requires var w := TextBefore(state.doc, from, text);
             |text| <= |m.whole| <= |w| && w[|w| - |m.whole|..] == m.whole
    requires HasGroup(m) ==> |m.group1.value| <= |m.whole|
    ensures var k := if HasGroup(m) then |m.group1.value| else |m.whole|;
            var r := StringHandler(s, state, m, from - (|m.whole| - |text|), to, from);
            && 0 <= from + |text| - k
            && r.Ok? && Valid(r.value) && Before(r.value) == state.doc && |r.value.steps| == 1
            && r.value.doc == Typed(state.doc, from, to, text)[..from + |text| - k] + Chars(s) + state.doc[to..]
  {
    var doc := state.doc;
    var k := if HasGroup(m) then |m.group1.value| else |m.whole|;
    var p := from + |text| - k;
    var t := Target(s, m, from - (|m.whole| - |text|), from);
    WindowTarget(s, doc, m, from, text, TextBefore(doc, from, text));
    ReplaceAtTarget(doc, from, to, text, s, p, t);
    assert StringHandler(s, state, m, from - (|m.whole| - |text|), to, from) == ReplaceWith(Start(doc), t.0, to, t.1);
  }

  /** A match that is a suffix of the window and covers the typed text
      ends with it, so `Target` starts the replacement at or after the
      window's start. */
  lemma WindowTarget(s: string, doc: Doc, m: Match, from: int, text: string, w: string)
    requires 0 <= from <= |doc| && w == TextBefore(doc, from, text)
    requires |text| <= |m.whole| <= |w| && w[|w| - |m.whole|..] == m.whole
    requires HasGroup(m) ==> |m.group1.value| <= |m.whole|
    ensures var k := if HasGroup(m) then |m.group1.value| else |m.whole|;
            var p := from + |text| - k;
            && 0 <= p
            && Target(s, m, from - (|m.whole| - |text|), from)
               == if p > from then (from, text[..p - from] + s) else (p, s)
  {
    MatchEndsWithTyped(w, m.whole, text);
    TargetOfMatch(s, m, from, text);
  }

  /** One replace step from `Target`'s start up to `to`, inserting its
      text, reads as the typed document up to `p`, then the string. */
  lemma ReplaceAtTarget(doc: Doc, from: int, to: int, text: string, s: string, p: int, t: (int, string))
    requires 0 <= from <= to <= |doc| && 0 <= p <= from + |text| && s != ""
    requires t == if p > from then (from, text[..p - from] + s) else (p, s)
    ensures var r := ReplaceWith(Start(doc), t.0, to, t.1);
            && r.Ok? && Valid(r.value) && Before(r.value) == doc && |r.value.steps| == 1
            && r.value.doc == Typed(doc, from, to, text)[..p] + Chars(s) + doc[to..]
  {
    TypedPrefix(doc, from, to, text, p, s);
  }

  /** Replacing from `p` with the string reads as the typed document up to
      `p`, then the string: the typed text before `p` is inserted with the
      string when `p` lies inside it. */
  lemma TypedPrefix(doc: Doc, from: int, to: int, text: string, p: int, s: string)
    requires 0 <= from <= to <= |doc| && 0 <= p <= from + |text|
    ensures p > from ==> doc[..from] + Chars(text[..p - from] + s) + doc[to..]
                         == Typed(doc, from, to, text)[..p] + Chars(s) + doc[to..]
    ensures p <= from ==> doc[..p] + Chars(s) + doc[to..] == Typed(doc, from, to, text)[..p] + Chars(s) + doc[to..]
  {
    var typed := Typed(doc, from, to, text);
    if p > from {
      var c := p - from;
      CharsConcat(text[..c], s);
      CharsPrefix(text, c);
      assert typed[..p] == doc[..from] + Chars(text)[..c];
    } else {
      assert typed[..p] == doc[..p];
    }
  }

  /** The input that shows the slice as written: after "zz", pasting "ab"
      against a rule `/zza(b)$/` with replacement "X". The handler as
      written inserts "za" + "X" where "a" + "X" was meant. */
  lemma StringHandlerAsWrittenSlicesTooMuch()
    ensures var state := EditorState(Chars("zz"), None);
            var m := Match("zzab", Some("b"));
            && TextBefore(state.doc, 2, "ab") == m.whole
            && StringHandlerAsWritten("X", state, m, 0, 2, 2).Ok?
            && StringHandlerAsWritten("X", state, m, 0, 2, 2).value.doc == Chars("zzzaX")
            && StringHandler("X", state, m, 0, 2, 2).Ok?
            && StringHandler("X", state, m, 0, 2, 2).value.doc == Chars("zzaX")
            && Chars("zzzaX") != Chars("zzaX")
  {
    var state := EditorState(Chars("zz"), None);
    var m := Match("zzab", Some("b"));
    assert TextBetween(state.doc, 0, 2) == "zz";
    assert HasGroup(m) && |m.whole| == 4 && |m.group1.value| == 1;
    assert JsSlice(m.whole, 1, 3) == m.whole[1..3] == "za";
    assert TargetAsWritten("X", m, 0, 2) == (2, "za" + "X");
    assert JsSlice(m.whole, 2, 3) == m.whole[2..3] == "a";
    assert Target("X", m, 0, 2) == (2, "a" + "X");
    assert "za" + "X" == "zaX" && "a" + "X" == "aX";
    CharsConcat("zz", "zaX");
    CharsConcat("zz", "aX");
    assert |Chars("zzzaX")| != |Chars("zzaX")|;
  }

  // ---------------------------------------------------------------------
  // Backspace undo

  /** A replace step's inverse, applied to the step's result, gives back
      the document the step was applied to. */
  lemma InvertEditUndoes(e: Edit, doc: Doc)
    requires ApplyEdit(e, doc).Ok?
    ensures InvertEdit(e, doc).Ok?
    ensures ApplyEdit(InvertEdit(e, doc).value, ApplyEdit(e, doc).value) == Ok(doc)
  {
    var after := ApplyEdit(e, doc).value;
    var inverse := InvertEdit(e, doc).value;
    assert after[..e.from] == doc[..e.from];
    assert after[e.from + |e.insert|..] == doc[e.to..];
    assert doc[..e.from] + doc[e.from..e.to] + doc[e.to..] == doc;
  }

  /** Inverting the steps of a valid transform from step `i - 1` down to
      the first, starting from the document before step `i`, succeeds and
      ends at the document the transform started from. */
  lemma {:induction false} RewindRestores(tr: Transform, toUndo: Transform, i: nat)
    requires Valid(toUndo) && i <= |toUndo.steps| && tr.doc == DocAt(toUndo, i)
    ensures Rewind(tr, toUndo, i).Ok?
    ensures Rewind(tr, toUndo, i).value.doc == DocAt(toUndo, 0)
    ensures |Rewind(tr, toUndo, i).value.steps| == |tr.steps| + i
    ensures Valid(tr) ==> Valid(Rewind(tr, toUndo, i).value) && Before(Rewind(tr, toUndo, i).value) == Before(tr)
    decreases i
  {
    if i > 0 {
      var e, d := toUndo.steps[i - 1], toUndo.docs[i - 1];
      assert ApplyEdit(e, d) == Ok(DocAt(toUndo, i));
      InvertEditUndoes(e, d);
      var next := AddStep(tr, InvertEdit(e, d).value);
      assert next.Ok? && next.value.doc == d;
      RewindRestores(next.value, toUndo, i - 1);
    }
  }

  /** With a record whose transform is a valid history ending at the
      current document, `maybeUndoInputRule` dispatches a transform that
      clears the record and leaves the textblock as typing the recorded
      text over the recorded range would have, starting from the document
      the rule saw. */
  lemma UndoRestoresTypedText(state: EditorState)
    requires state.appliedInputRule.Some?
    requires var u := state.appliedInputRule.value;
             && Valid(u.transform) && state.doc == u.transform.doc
             && u.text != "" && 0 <= u.from <= u.to <= |Before(u.transform)|
    ensures UndoInputRule(state).Ok? && UndoInputRule(state).value.Some?
    ensures var u := state.appliedInputRule.value;
            var a := UndoInputRule(state).value.value;
            && a.TransformAction? && a.fromInputRule.None?
            && Valid(a.transform) && Before(a.transform) == state.doc
            && |a.transform.steps| == |u.transform.steps| + 1
            && a.transform.doc == Typed(Before(u.transform), u.from, u.to, u.text)
  {
    var u := state.appliedInputRule.value;
    RewindRestores(Start(state.doc), u.transform, |u.transform.steps|);
  }

  /** When every rule is a string rule, a rule that fires records a
      one-step history from the current document, with the range and text
      typed. */
  lemma StringRuleRecordsHistory(rules: seq<Rule>, state: EditorState, from: int, to: int, text: string)
    requires forall k :: 0 <= k < |rules| ==> rules[k].handler.Literal?
    requires TextInput(rules, state, from, to, text).Ok? && TextInput(rules, state, from, to, text).value.Some?
    ensures var a := TextInput(rules, state, from, to, text).value.value;
            && a.TransformAction?
            && a.fromInputRule == Some(Applied(a.transform, from, to, text))
            && Valid(a.transform) && Before(a.transform) == state.doc && |a.transform.steps| == 1
  {
    var window := TextBefore(state.doc, from, text);
    FirstRuleWins(rules, state, from, to, text, window, 0);
    var k :| 0 <= k < |rules|
             && RunRule(rules[k], state, from, to, text, window) != Ok(None)
             && TextInput(rules, state, from, to, text)
                == Fired(RunRule(rules[k], state, from, to, text, window), from, to, text);
    assert rules[k].handler.Literal?;
  }

  /** Typing text that fires a string rule and then pressing backspace
      leaves the textblock as typing alone would have, with no record
      pending. */
  lemma RuleThenBackspace(rules: seq<Rule>, state: EditorState, from: int, to: int, text: string)
    requires forall k :: 0 <= k < |rules| ==> rules[k].handler.Literal?
    requires 0 <= from <= to <= |state.doc| && text != ""
    requires TextInput(rules, state, from, to, text).Ok? && TextInput(rules, state, from, to, text).value.Some?
    ensures var s1 := Dispatch(state, TextInput(rules, state, from, to, text).value.value);
            && s1.appliedInputRule.Some?
            && KeyDown(8, s1).Ok? && KeyDown(8, s1).value.Some?
            && KeyDown(8, s1).value.value.transform.doc == Typed(state.doc, from, to, text)
            && Dispatch(s1, KeyDown(8, s1).value.value).appliedInputRule.None?
  {
    StringRuleRecordsHistory(rules, state, from, to, text);
    var s1 := Dispatch(state, TextInput(rules, state, from, to, text).value.value);
    UndoRestoresTypedText(s1);
  }

  // ---------------------------------------------------------------------
  // The em-dash rule

  /** A regular expression `/--$/`. */
  function DoubleDash(w: string): Option<Match>
  {
    if |w| >= 2 && w[|w| - 2..] == "--" then Some(Match("--", None)) else None
  }

  /** With the rule `/--$/` to an em dash, typing "-" after "-" gives the
      em dash, and an immediate backspace gives back "--". */
  lemma EmDashThenBackspace()
    ensures var rules := [Rule(DoubleDash, Literal("\U{2014}"))];
            var state := EditorState(Chars("-"), None);
            var r := TextInput(rules, state, 1, 1, "-");
            && r.Ok? && r.value.Some? && r.value.value.transform.doc == Chars("\U{2014}")
            && var s1 := Dispatch(state, r.value.value);
               && KeyDown(8, s1).Ok? && KeyDown(8, s1).value.Some?
               && KeyDown(8, s1).value.value.transform.doc == Chars("--")
  {
    var rules := [Rule(DoubleDash, Literal("\U{2014}"))];
    var state := EditorState(Chars("-"), None);
    var window := TextBefore(state.doc, 1, "-");
    assert window == "--" by {
      assert TextBetween(state.doc, 0, 1) == "-";
    }
    var m := Match("--", None);
    assert DoubleDash(window) == Some(m);
    StringHandlerReplacesMatch("\U{2014}", state, m, 1, 1, "-");
    var tr := StringHandler("\U{2014}", state, m, 0, 1, 1).value;
    assert tr.doc == Chars("\U{2014}") by {
      assert Typed(state.doc, 1, 1, "-")[..0] == [] && state.doc[1..] == [];
    }
    assert RunRule(rules[0], state, 1, 1, "-", window) == Ok(Some(tr));
    assert TextInput(rules, state, 1, 1, "-") == Ok(Some(RuleAction(tr, 1, 1, "-")));
    RuleThenBackspace(rules, state, 1, 1, "-");
    assert Typed(state.doc, 1, 1, "-") == Chars("--") by {
      CharsConcat("-", "-");
      assert state.doc[..1] == state.doc && state.doc[1..] == [];
    }
  }
}

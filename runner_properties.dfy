/**
 * Properties of the dialog runner that relate several calls or hold for
 * whole scripts: what the option filter keeps, that more fuel never changes
 * a finished call, that Waiting and End are idle, and concrete runs showing
 * the fixed step order of `handle_dialog`, a script that never stops, and a
 * full conversation with a decision.
 */
module RunnerProperties {
  import opened Wrappers
  import opened ScriptModel
  import opened RunnerComponents
  import opened RunnerSpec

  // ---------------------------------------------------------------------------
  // The option filter

  /** Filtering a concatenation filters each part; the options keep their order. */
  lemma {:induction false} VisibleAppend(a: seq<OptionPossibility>, b: seq<OptionPossibility>, context: map<string, bool>)
    ensures Visible(a + b, context) == Visible(a, context) + Visible(b, context)
  {
    if a == [] {
      assert a + b == b;
    } else {
      var shown := if PassesCondition(a[0], context) then [OptionOf(a[0])] else [];
      assert (a + b)[0] == a[0];
      assert (a + b)[1..] == a[1..] + b;
      assert Visible(a + b, context) == shown + Visible(a[1..] + b, context);
      VisibleAppend(a[1..], b, context);
      assert Visible(a, context) == shown + Visible(a[1..], context);
    }
  }

  /** An option is shown exactly when some possibility that passes its condition gives it. */
  lemma {:induction false} VisibleExactly(possibilities: seq<OptionPossibility>, context: map<string, bool>)
    ensures forall o :: o in Visible(possibilities, context) <==>
      exists p <- possibilities :: PassesCondition(p, context) && OptionOf(p) == o
  {
    if possibilities != [] {
      var head, tail := possibilities[0], possibilities[1..];
      assert possibilities == [head] + tail;
      VisibleExactly(tail, context);
    }
  }

  /** When every possibility passes, every one is shown, in order, with its own text, target and flag. */
  lemma {:induction false} VisibleAllPass(possibilities: seq<OptionPossibility>, context: map<string, bool>)
    requires forall p <- possibilities :: PassesCondition(p, context)
    ensures |Visible(possibilities, context)| == |possibilities|
    ensures forall i :: 0 <= i < |possibilities| ==> Visible(possibilities, context)[i] == OptionOf(possibilities[i])
  {
    if possibilities != [] {
      var head, tail := possibilities[0], possibilities[1..];
      assert head in possibilities;
      assert forall p <- tail :: p in possibilities;
      VisibleAllPass(tail, context);
    }
  }

  /** Two options guarded by `flag == true` and `flag == false`, with `flag` set: only the first is shown. */
  lemma ConditionalFiltering()
    ensures
      var guarded := [
        OptionPossibility("Yes", "A", Some(Condition("flag", Equal, true)), false),
        OptionPossibility("No", "B", Some(Condition("flag", Equal, false)), false)];
      Visible(guarded, map["flag" := true]) == [DialogOption("Yes", "A", false)]
  {
    var guarded := [
      OptionPossibility("Yes", "A", Some(Condition("flag", Equal, true)), false),
      OptionPossibility("No", "B", Some(Condition("flag", Equal, false)), false)];
    assert guarded[1..][1..] == [];
  }

  // ---------------------------------------------------------------------------
  // Fuel

  /** One more unit of fuel does not change a call that did not run out. */
  lemma {:induction false} NextOneMore(fuel: nat, r: RunnerState, context: map<string, bool>, log: seq<Invocation>, names: set<string>)
    requires Valid(r)
    requires Next(fuel, r, context, log, names).outcome != OutOfFuel
    ensures Next(fuel + 1, r, context, log, names) == Next(fuel, r, context, log, names)
    decreases fuel, 2
  {
    if r.state == DialogState.Start || r.state == DialogState.Dialog {
      HandleDialogOneMore(fuel, r, context, log, names);
    }
  }

  lemma {:induction false} HandleDialogOneMore(fuel: nat, r: RunnerState, context: map<string, bool>, log: seq<Invocation>, names: set<string>)
    requires Valid(r) && (r.state == DialogState.Start || r.state == DialogState.Dialog)
    requires HandleDialog(fuel, r, context, log, names).outcome != OutOfFuel
    ensures HandleDialog(fuel + 1, r, context, log, names) == HandleDialog(fuel, r, context, log, names)
    decreases fuel, 1
  {
    var r' := PerformJump(r);
    if !CommandMissing(r', names) {
      ProcessEventOneMore(fuel, r', UpdateContext(r, context), ExecuteCommand(r', log), names);
    }
  }

  lemma {:induction false} ProcessEventOneMore(fuel: nat, r: RunnerState, context: map<string, bool>, log: seq<Invocation>, names: set<string>)
    requires Valid(r) && (r.state == DialogState.Start || r.state == DialogState.Dialog)
    requires ProcessEvent(fuel, r, context, log, names).outcome != OutOfFuel
    ensures ProcessEvent(fuel + 1, r, context, log, names) == ProcessEvent(fuel, r, context, log, names)
    decreases fuel, 0
  {
    var r' := MovePointer(r.(state := EventToDialogState(LineToEvent(CurrentLine(r), context))));
    if r'.state == DialogState.Start {
      NextOneMore(fuel - 1, r', context, log, names);
    }
  }

  /** A call that finishes with some fuel finishes the same way with any more fuel. */
  lemma {:induction false} NextFuelMonotone(fuel: nat, more: nat, r: RunnerState, context: map<string, bool>, log: seq<Invocation>, names: set<string>)
    requires Valid(r)
    requires Next(fuel, r, context, log, names).outcome != OutOfFuel
    ensures Next(fuel + more, r, context, log, names) == Next(fuel, r, context, log, names)
    decreases more
  {
    if more > 0 {
      NextFuelMonotone(fuel, more - 1, r, context, log, names);
      NextOneMore(fuel + more - 1, r, context, log, names);
    }
  }

  // ---------------------------------------------------------------------------
  // Waiting and End

  /** In Waiting or End, `next_event` answers with the state and changes nothing, however often it is called. */
  lemma Idle(fuel: nat, r: RunnerState, context: map<string, bool>, log: seq<Invocation>, names: set<string>)
    requires Valid(r) && (r.state == DialogState.Waiting || r.state == DialogState.End)
    ensures Next(fuel, r, context, log, names) ==
      Step(Emitted(if r.state == DialogState.Waiting then DialogEvent.Waiting else DialogEvent.End), r, context, log)
  {
  }

  /** Once End has been reported, every later call reports End and changes nothing. */
  lemma EndIsFinal(fuel: nat, later: nat, r: RunnerState, context: map<string, bool>, log: seq<Invocation>, names: set<string>)
    requires Valid(r)
    requires Next(fuel, r, context, log, names).outcome == Emitted(DialogEvent.End)
    ensures
      var s := Next(fuel, r, context, log, names);
      Next(later, s.runner, s.context, s.log, names) == Step(Emitted(DialogEvent.End), s.runner, s.context, s.log)
  {
    var s := Next(fuel, r, context, log, names);
    assert Agrees(s.outcome.event, s.runner, s.context);
  }

  // ---------------------------------------------------------------------------
  // One line at a time

  /** A dialog line that is not the last of its node is shown, and the runner waits just past it in Dialog. */
  lemma DialogLineShown(fuel: nat, r: RunnerState, context: map<string, bool>, log: seq<Invocation>, names: set<string>)
    requires Valid(r) && (r.state == Start || r.state == DialogState.Dialog)
    requires CurrentLine(r).DialogLine? && r.index < |r.nodes[r.node].lines| - 1
    ensures
      var line := CurrentLine(r);
      ProcessEvent(fuel, r, context, log, names) ==
        Step(Emitted(DialogEvent.Dialog(line.speaker, line.text, line.tags)),
             r.(index := r.index + 1, state := DialogState.Dialog), context, log)
  {
  }

  /**
   * A line that gives no event and is not the last of its node hands over to
   * `next_event` on the following line, in Start, spending one unit of fuel.
   */
  lemma SilentLinePassed(fuel: nat, r: RunnerState, context: map<string, bool>, log: seq<Invocation>, names: set<string>)
    requires Valid(r) && (r.state == Start || r.state == DialogState.Dialog)
    requires !CurrentLine(r).DialogLine? && !CurrentLine(r).OptionLine?
    requires r.index < |r.nodes[r.node].lines| - 1 && fuel > 0
    ensures ProcessEvent(fuel, r, context, log, names) ==
      Next(fuel - 1, r.(index := r.index + 1, state := Start), context, log, names)
  {
  }

  /**
   * A set line that is not the last of its node writes its variable and hands
   * over to `next_event` on the following line.
   */
  lemma SetLineApplied(fuel: nat, r: RunnerState, context: map<string, bool>, log: seq<Invocation>, names: set<string>)
    requires Valid(r) && (r.state == Start || r.state == DialogState.Dialog)
    requires CurrentLine(r).SetLine? && r.index < |r.nodes[r.node].lines| - 1 && fuel > 0
    ensures HandleDialog(fuel, r, context, log, names) ==
      Next(fuel - 1, r.(index := r.index + 1, state := Start),
           context[CurrentLine(r).variableName := CurrentLine(r).value], log, names)
  {
    SilentLinePassed(fuel, r, context[CurrentLine(r).variableName := CurrentLine(r).value], log, names);
  }

  // ---------------------------------------------------------------------------
  // Jumps and the end of a node

  /**
   * A dialog line that is the last line of its node is reported as End, not
   * as dialog: the pointer moves past it and the state is overwritten.
   */
  lemma DialogOnLastLineEnds(fuel: nat, r: RunnerState, context: map<string, bool>, log: seq<Invocation>, names: set<string>)
    requires Valid(r) && (r.state == Start || r.state == DialogState.Dialog)
    requires CurrentLine(r).DialogLine? && r.index == |r.nodes[r.node].lines| - 1
    ensures ProcessEvent(fuel, r, context, log, names).outcome == Emitted(DialogEvent.End)
  {
  }

  /**
   * A set line at the top of a jump's target is passed over: the step that
   * jumps goes on from the target's second line with the context as it was.
   */
  lemma SetLineAfterJumpPassedOver(fuel: nat, r: RunnerState, context: map<string, bool>, log: seq<Invocation>, names: set<string>)
    requires Valid(r) && (r.state == Start || r.state == DialogState.Dialog)
    requires CurrentLine(r).JumpLine?
    requires r.nodes[CurrentLine(r).node].lines[0].SetLine? && |r.nodes[CurrentLine(r).node].lines| > 1
    requires fuel > 0
    ensures HandleDialog(fuel, r, context, log, names) ==
      Next(fuel - 1, r.(node := CurrentLine(r).node, index := 1, state := Start), context, log, names)
  {
  }

  /** A registered command at the top of a jump's target is run in the step that jumps, once. */
  lemma CommandAfterJumpRuns(fuel: nat, r: RunnerState, context: map<string, bool>, log: seq<Invocation>, names: set<string>)
    requires Valid(r) && (r.state == Start || r.state == DialogState.Dialog)
    requires CurrentLine(r).JumpLine?
    requires
      var first := r.nodes[CurrentLine(r).node].lines[0];
      first.CommandLine? && first.funcName in names
    ensures
      var first := r.nodes[CurrentLine(r).node].lines[0];
      HandleDialog(fuel, r, context, log, names) ==
        ProcessEvent(fuel, r.(node := CurrentLine(r).node, index := 0), context,
                     log + [Invocation(first.funcName, first.args)], names)
  {
  }

  // ---------------------------------------------------------------------------
  // Concrete runs

  /** The runner's state on `nodes` with the cursor on `(node, index)`. */
  function At(nodes: seq<Node>, node: nat, index: nat, state: DialogState): RunnerState
  {
    RunnerState(nodes, node, index, state)
  }

  /** A node that sets a variable and jumps back to itself. */
  function LoopNodes(): seq<Node>
  {
    [Node("Loop", [SetLine("x", true), JumpLine(0, "Loop")])]
  }

  /** From the jump of the loop, every call runs out of fuel. */
  lemma {:induction false} LoopFromJump(fuel: nat, context: map<string, bool>, log: seq<Invocation>, names: set<string>)
    ensures Valid(At(LoopNodes(), 0, 1, DialogState.Start))
    ensures Next(fuel, At(LoopNodes(), 0, 1, DialogState.Start), context, log, names).outcome == OutOfFuel
    decreases fuel
  {
    var onJump := At(LoopNodes(), 0, 1, DialogState.Start);
    var onSet := At(LoopNodes(), 0, 0, DialogState.Start);
    assert PerformJump(onJump) == onSet;
    assert UpdateContext(onJump, context) == context;
    assert ExecuteCommand(onSet, log) == log;
    assert LineToEvent(CurrentLine(onSet), context) == None;
    assert MovePointer(onSet) == onJump;
    assert Next(fuel, onJump, context, log, names) == ProcessEvent(fuel, onSet, context, log, names);
    if fuel > 0 {
      LoopFromJump(fuel - 1, context, log, names);
    }
  }

  /**
   * `[set x, jump to this node]` never produces an event: every call runs out
   * of fuel, however much it is given (the source recurses forever). After the
   * first pass the jump lands on the set line, which is then passed over, so
   * `x` is written once.
   */
  lemma NeverStops(fuel: nat, names: set<string>)
    ensures Valid(At(LoopNodes(), 0, 0, DialogState.Start))
    ensures Next(fuel, At(LoopNodes(), 0, 0, DialogState.Start), map[], [], names).outcome == OutOfFuel
  {
    var onSet := At(LoopNodes(), 0, 0, DialogState.Start);
    var context := map["x" := true];
    assert UpdateContext(onSet, map[]) == context;
    assert PerformJump(onSet) == onSet;
    assert LineToEvent(CurrentLine(onSet), context) == None;
    assert MovePointer(onSet) == At(LoopNodes(), 0, 1, DialogState.Start);
    assert Next(fuel, onSet, map[], [], names) == ProcessEvent(fuel, onSet, context, [], names);
    if fuel > 0 {
      LoopFromJump(fuel - 1, map["x" := true], [], names);
    }
  }

  /** A jump to a node whose first line sets a variable, followed by two dialog lines. */
  function JumpToSetNodes(): seq<Node>
  {
    [Node("A", [JumpLine(1, "B")]),
     Node("B", [SetLine("x", true), DialogLine("N", "Hi", []), DialogLine("N", "Bye", [])])]
  }

  /** An instance of `SetLineAfterJumpPassedOver`: `x` is never written, and the first dialog line shown. */
  lemma JumpPassesOverSetLine()
    ensures Valid(At(JumpToSetNodes(), 0, 0, DialogState.Start))
    ensures Next(1, At(JumpToSetNodes(), 0, 0, DialogState.Start), map[], [], {}) ==
      Step(Emitted(DialogEvent.Dialog("N", "Hi", [])), At(JumpToSetNodes(), 1, 2, DialogState.Dialog), map[], [])
  {
    var nodes := JumpToSetNodes();
    SetLineAfterJumpPassedOver(1, At(nodes, 0, 0, DialogState.Start), map[], [], {});
    DialogLineShown(0, At(nodes, 1, 1, DialogState.Start), map[], [], {});
  }

  /** A jump to a node whose first line runs a command, followed by two dialog lines. */
  function JumpToCommandNodes(): seq<Node>
  {
    [Node("A", [JumpLine(1, "B")]),
     Node("B", [CommandLine("wave", ["hi"]), DialogLine("N", "Hi", []), DialogLine("N", "Bye", [])])]
  }

  /** An instance of `CommandAfterJumpRuns`: `wave` is logged once, and the first dialog line shown. */
  lemma JumpRunsCommand()
    ensures Valid(At(JumpToCommandNodes(), 0, 0, DialogState.Start))
    ensures Next(1, At(JumpToCommandNodes(), 0, 0, DialogState.Start), map[], [], {"wave"}) ==
      Step(Emitted(DialogEvent.Dialog("N", "Hi", [])), At(JumpToCommandNodes(), 1, 2, DialogState.Dialog),
           map[], [Invocation("wave", ["hi"])])
  {
    var nodes := JumpToCommandNodes();
    var log := [Invocation("wave", ["hi"])];
    CommandAfterJumpRuns(1, At(nodes, 0, 0, DialogState.Start), map[], [], {"wave"});
    SilentLinePassed(1, At(nodes, 1, 0, DialogState.Start), map[], log, {"wave"});
    DialogLineShown(0, At(nodes, 1, 1, DialogState.Start), map[], log, {"wave"});
  }

  /** An instance of `DialogOnLastLineEnds`: a node of one dialog line reports End. */
  lemma LastDialogLineReportsEnd()
    ensures Valid(At([Node("A", [DialogLine("N", "Hi", [])])], 0, 0, DialogState.Start))
    ensures Next(0, At([Node("A", [DialogLine("N", "Hi", [])])], 0, 0, DialogState.Start), map[], [], {}) ==
      Step(Emitted(DialogEvent.End), At([Node("A", [DialogLine("N", "Hi", [])])], 0, 1, DialogState.End), map[], [])
  {
    var nodes := [Node("A", [DialogLine("N", "Hi", [])])];
    assert MovePointer(At(nodes, 0, 0, DialogState.Dialog)) == At(nodes, 0, 1, DialogState.End);
  }

  /** The options of the conversation below: "Stay" is shown only once `met` is true. */
  function Choices(stayUsed: bool): seq<OptionPossibility>
  {
    [OptionPossibility("Leave", "End", None, false),
     OptionPossibility("Stay", "Start", Some(Condition("met", Equal, true)), stayUsed)]
  }

  /** Node "Start" sets `met`, says hello and jumps to "Start2", which offers the two choices. */
  function Conversation(stayUsed: bool): seq<Node>
  {
    [Node("Start", [SetLine("met", true), DialogLine("Narrator", "Hello", []), JumpLine(1, "Start2")]),
     Node("Start2", [OptionLine("", Choices(stayUsed))])]
  }

  /** The conversation starts on line 0 of "Start". */
  lemma ConversationStarts()
    ensures CreateFromNodes(Conversation(false), "Start") == Success(At(Conversation(false), 0, 0, DialogState.Start))
  {
  }

  /** The first call sets `met` and says hello. */
  lemma ConversationSaysHello()
    ensures Valid(At(Conversation(false), 0, 0, DialogState.Start))
    ensures Next(1, At(Conversation(false), 0, 0, DialogState.Start), map[], [], {}) ==
      Step(Emitted(DialogEvent.Dialog("Narrator", "Hello", [])),
           At(Conversation(false), 0, 2, DialogState.Dialog), map["met" := true], [])
  {
    var nodes := Conversation(false);
    var start, onHello := At(nodes, 0, 0, DialogState.Start), At(nodes, 0, 1, DialogState.Start);
    SetLineApplied(1, start, map[], [], {});
    DialogLineShown(0, onHello, map["met" := true], [], {});
  }

  /** The second call jumps to "Start2" and shows both options, since `met` is now true. */
  lemma ConversationOffersChoices()
    ensures Valid(At(Conversation(false), 0, 2, DialogState.Dialog))
    ensures Next(0, At(Conversation(false), 0, 2, DialogState.Dialog), map["met" := true], [], {}) ==
      Step(Emitted(Options("", [DialogOption("Leave", "End", false), DialogOption("Stay", "Start", false)])),
           At(Conversation(false), 1, 0, DialogState.Waiting), map["met" := true], [])
  {
    var nodes := Conversation(false);
    var context := map["met" := true];
    assert PerformJump(At(nodes, 0, 2, DialogState.Dialog)) == At(nodes, 1, 0, DialogState.Dialog);
    assert Visible(Choices(false), context) ==
      [DialogOption("Leave", "End", false), DialogOption("Stay", "Start", false)] by {
      assert Choices(false)[1..][1..] == [];
    }
  }

  /** Deciding "Start" marks "Stay" used and goes back to line 0 of "Start". */
  lemma ConversationDecides()
    ensures Valid(At(Conversation(false), 1, 0, DialogState.Waiting))
    ensures Offered(At(Conversation(false), 1, 0, DialogState.Waiting), "Start")
    ensures MakeDecision(At(Conversation(false), 1, 0, DialogState.Waiting), "Start") ==
      (Success(()), At(Conversation(true), 0, 0, DialogState.Start))
  {
    var nodes := Conversation(false);
    var waiting := At(nodes, 1, 0, DialogState.Waiting);
    assert CurrentLine(waiting).possibilities[1].jumpToNodeTitle == "Start";
    var marked := UpdateUsed(waiting, "Start");
    assert FindPossibility(Choices(false), "Start") == Some(1);
    assert Choices(false)[1 := Choices(false)[1].(used := true)] == Choices(true);
    assert nodes[1].lines[0 := OptionLine("", Choices(true))] == Conversation(true)[1].lines;
    assert marked.nodes == Conversation(true);
  }

  /** After the decision the next call says hello again. */
  lemma ConversationSaysHelloAgain()
    ensures Valid(At(Conversation(true), 0, 0, DialogState.Start))
    ensures Next(1, At(Conversation(true), 0, 0, DialogState.Start), map["met" := true], [], {}).outcome ==
      Emitted(DialogEvent.Dialog("Narrator", "Hello", []))
  {
    var nodes := Conversation(true);
    var again, onHello := At(nodes, 0, 0, DialogState.Start), At(nodes, 0, 1, DialogState.Start);
    var context := map["met" := true];
    SetLineApplied(1, again, context, [], {});
    assert context["met" := true] == context;
    DialogLineShown(0, onHello, context, [], {});
  }

  /** Choosing "End", a title no node has, marks "Leave" used but leaves the cursor on the options. */
  lemma UnknownDecisionStillMarksUsed()
    ensures Valid(At(Conversation(false), 1, 0, DialogState.Waiting))
    ensures Offered(At(Conversation(false), 1, 0, DialogState.Waiting), "End")
    ensures
      var out := MakeDecision(At(Conversation(false), 1, 0, DialogState.Waiting), "End");
      && out.0 == Failure(UnknownNodeChosen("End"))
      && out.1.node == 1 && out.1.index == 0 && out.1.state == DialogState.Waiting
      && out.1.nodes[1].lines[0].possibilities[0].used
  {
    var waiting := At(Conversation(false), 1, 0, DialogState.Waiting);
    assert CurrentLine(waiting).possibilities[0].jumpToNodeTitle == "End";
    assert FindPossibility(Choices(false), "End") == Some(0);
  }
}

/**
 * What every operation of `DialogRunner` (src/dialog_runner/runner.rs) does,
 * as functions on values. The runner's fields become a `RunnerState`; the
 * state context is a map; the command registry is the set of registered
 * names, and the commands it has run are a log of invocations.
 *
 * `next_event`, `handle_dialog` and `process_event` call each other and need
 * not terminate (a node `[set x, jump to itself]` never stops), so they take
 * fuel: each time `process_event` goes back to `next_event` one unit is spent,
 * and with none left the outcome is `OutOfFuel`. The source panics when a
 * command line names an unregistered command; here that is the outcome
 * `Panicked`.
 */
module RunnerSpec {
  import opened Wrappers
  import opened ScriptModel
  import opened RunnerComponents
  import Context

  /** One call of a registered command: its name and its arguments in order. */
  datatype Invocation = Invocation(funcName: string, args: seq<string>)

  /** The fields of a `DialogRunner`: its nodes, the cursor and the state. */
  datatype RunnerState = RunnerState(nodes: seq<Node>, node: nat, index: nat, state: DialogState)

  datatype Outcome = Emitted(event: DialogEvent) | OutOfFuel | Panicked(funcName: string)

  /** Where one call leaves the runner, the context and the command log. */
  datatype Step = Step(outcome: Outcome, runner: RunnerState, context: map<string, bool>, log: seq<Invocation>)

  // ---------------------------------------------------------------------------
  // Well-formed runners

  /**
   * Nodes the runner can walk without indexing out of bounds: every node has a
   * line (the cursor is placed on line 0 of a node) and every jump names a node
   * of the runner (the source would fail to upgrade the handle).
   */
  predicate WellFormed(nodes: seq<Node>)
  {
    && (forall i :: 0 <= i < |nodes| ==> |nodes[i].lines| > 0)
    && (forall i, j :: 0 <= i < |nodes| && 0 <= j < |nodes[i].lines| && nodes[i].lines[j].JumpLine? ==>
          nodes[i].lines[j].node < |nodes|)
  }

  predicate OnLine(r: RunnerState)
  {
    r.node < |r.nodes| && r.index < |r.nodes[r.node].lines|
  }

  /**
   * The invariant every public operation keeps: the cursor names a node, in
   * Start and Dialog it is on a line, and in Waiting it is parked on the option
   * line whose options were shown.
   */
  predicate Valid(r: RunnerState)
  {
    && WellFormed(r.nodes)
    && r.node < |r.nodes|
    && (r.state == Start || r.state == DialogState.Dialog || r.state == DialogState.Waiting ==> OnLine(r))
    && (r.state == DialogState.Waiting ==> r.nodes[r.node].lines[r.index].OptionLine?)
  }

  /** `current_line`: the line under the cursor. */
  function CurrentLine(r: RunnerState): (line: Line)
    requires OnLine(r)
    ensures line in r.nodes[r.node].lines
  {
    r.nodes[r.node].lines[r.index]
  }

  // ---------------------------------------------------------------------------
  // The pure steps

  /**
   * `passes_condition`: no condition passes; a condition on a variable the
   * context does not hold fails, whatever its comparison; otherwise `Equal`
   * asks for the stored value and `NotEqual` for the other one.
   */
  function PassesCondition(p: OptionPossibility, context: map<string, bool>): (r: bool)
    ensures p.condition.None? ==> r
    ensures p.condition.Some? && p.condition.value.variableName !in context ==> !r
    ensures p.condition.Some? && p.condition.value.variableName in context ==>
      var c := p.condition.value;
      (r <==> (context[c.variableName] == c.value <==> c.condition == Equal))
  {
    match p.condition
    case None => true
    case Some(c) =>
      match Context.Get(context, c.variableName)
      case Some(value) =>
        (match c.condition
         case Equal => value == c.value
         case NotEqual => value != c.value)
      case None => false
  }

  /** The option shown for a possibility: its text, its target title and its current `used` flag. */
  function OptionOf(p: OptionPossibility): DialogOption
  {
    DialogOption(p.text, p.jumpToNodeTitle, p.used)
  }

  /** The filter-then-map of `line_to_event`: the options that pass, in their order. */
  function Visible(possibilities: seq<OptionPossibility>, context: map<string, bool>): (r: seq<DialogOption>)
    ensures |r| <= |possibilities|
  {
    if possibilities == [] then []
    else
      (if PassesCondition(possibilities[0], context) then [OptionOf(possibilities[0])] else [])
      + Visible(possibilities[1..], context)
  }

  /**
   * `line_to_event`: a dialog line is shown as it is, an option line as the
   * options that pass, and every other line gives no event.
   */
  function LineToEvent(line: Line, context: map<string, bool>): (e: Option<DialogEvent>)
    ensures e.None? <==> !line.DialogLine? && !line.OptionLine?
    ensures line.DialogLine? ==> e == Some(DialogEvent.Dialog(line.speaker, line.text, line.tags))
    ensures line.OptionLine? ==> e == Some(Options(line.speaker, Visible(line.possibilities, context)))
  {
    match line
    case DialogLine(speaker, text, tags) => Some(DialogEvent.Dialog(speaker, text, tags))
    case OptionLine(speaker, possibilities) => Some(Options(speaker, Visible(possibilities, context)))
    case _ => None
  }

  /** `event_to_dialog_state`: the state an event leaves the runner in. */
  function EventToDialogState(e: Option<DialogEvent>): (s: DialogState)
    ensures s == DialogState.Start <==> e.None?
    ensures s == DialogState.Dialog <==> e.Some? && e.value.Dialog?
    ensures s == DialogState.Waiting <==> e.Some? && (e.value.Options? || e.value.Waiting?)
    ensures s == DialogState.End <==> e == Some(DialogEvent.End)
  {
    match e
    case Some(Dialog(_, _, _)) => DialogState.Dialog
    case Some(Options(_, _)) => DialogState.Waiting
    case Some(Waiting) => DialogState.Waiting
    case Some(End) => DialogState.End
    case None => DialogState.Start
  }

  /** `update_context`: a set line writes its value; any other line leaves the context alone. */
  function UpdateContext(r: RunnerState, context: map<string, bool>): (c: map<string, bool>)
    requires OnLine(r)
    ensures CurrentLine(r).SetLine? ==>
      && Context.Get(c, CurrentLine(r).variableName) == Some(CurrentLine(r).value)
      && forall k :: k != CurrentLine(r).variableName ==> Context.Get(c, k) == Context.Get(context, k)
    ensures !CurrentLine(r).SetLine? ==> c == context
    ensures context.Keys <= c.Keys
  {
    match CurrentLine(r)
    case SetLine(variableName, value) => context[variableName := value]
    case _ => context
  }

  /** `perform_jump`: a jump line puts the cursor on line 0 of its node; the state is kept. */
  function PerformJump(r: RunnerState): (r': RunnerState)
    requires Valid(r) && (r.state == Start || r.state == DialogState.Dialog)
    ensures Valid(r') && r'.nodes == r.nodes && r'.state == r.state
    ensures CurrentLine(r).JumpLine? ==> r'.node == CurrentLine(r).node && r'.index == 0
    ensures !CurrentLine(r).JumpLine? ==> r' == r
  {
    match CurrentLine(r)
    case JumpLine(node, _) => r.(node := node, index := 0)
    case _ => r
  }

  /** The line under the cursor is a command the registry does not hold (the source's `unwrap` panics). */
  predicate CommandMissing(r: RunnerState, names: set<string>)
    requires OnLine(r)
  {
    CurrentLine(r).CommandLine? && CurrentLine(r).funcName !in names
  }

  /** `execute_command`: a command line is invoked once with its arguments; any other line runs nothing. */
  function ExecuteCommand(r: RunnerState, log: seq<Invocation>): (log': seq<Invocation>)
    requires OnLine(r)
    ensures CurrentLine(r).CommandLine? ==>
      log' == log + [Invocation(CurrentLine(r).funcName, CurrentLine(r).args)]
    ensures !CurrentLine(r).CommandLine? ==> log' == log
  {
    match CurrentLine(r)
    case CommandLine(funcName, args) => log + [Invocation(funcName, args)]
    case _ => log
  }

  /**
   * `move_pointer`: in Waiting the cursor stays on the option line; otherwise
   * it moves to the next line, and the state becomes End once it has passed
   * the node's last line.
   */
  function MovePointer(r: RunnerState): (r': RunnerState)
    requires r.node < |r.nodes|
    ensures r'.nodes == r.nodes && r'.node == r.node
    ensures r.state == DialogState.Waiting ==> r' == r
    ensures r.state != DialogState.Waiting ==>
      && r'.index == r.index + 1
      && (r'.state == DialogState.End <==> r.state == DialogState.End || r'.index >= |r.nodes[r.node].lines|)
      && (r'.state != DialogState.End ==> r'.state == r.state)
  {
    if r.state == DialogState.Waiting then r
    else
      var r' := r.(index := r.index + 1);
      if r'.index >= |r.nodes[r.node].lines| then r'.(state := DialogState.End) else r'
  }

  // ---------------------------------------------------------------------------
  // next_event, handle_dialog and process_event

  /**
   * What an emitted event says about where the runner stopped: after a dialog
   * event the runner is in Dialog just past that dialog line; after options it
   * waits on the option line whose passing options they are; Waiting and End
   * are reported in the state of the same name.
   */
  predicate Agrees(e: DialogEvent, r: RunnerState, context: map<string, bool>)
    requires Valid(r)
  {
    match e
    case Dialog(speaker, text, tags) =>
      && r.state == DialogState.Dialog
      && 0 < r.index <= |r.nodes[r.node].lines|
      && r.nodes[r.node].lines[r.index - 1] == DialogLine(speaker, text, tags)
    case Options(speaker, options) =>
      && r.state == DialogState.Waiting
      && CurrentLine(r).speaker == speaker
      && options == Visible(CurrentLine(r).possibilities, context)
    case Waiting => r.state == DialogState.Waiting
    case End => r.state == DialogState.End
  }

  /** What every call keeps: a valid runner over the same nodes, a log that only grows, no key forgotten. */
  predicate Keeps(s: Step, r: RunnerState, context: map<string, bool>, log: seq<Invocation>)
  {
    && Valid(s.runner)
    && s.runner.nodes == r.nodes
    && log <= s.log
    && context.Keys <= s.context.Keys
    && (s.outcome.Emitted? ==> Agrees(s.outcome.event, s.runner, s.context))
  }

  /** `next_event`: Waiting and End answer with themselves; Start and Dialog go on with the dialog. */
  function Next(fuel: nat, r: RunnerState, context: map<string, bool>, log: seq<Invocation>, names: set<string>): (s: Step)
    requires Valid(r)
    ensures Keeps(s, r, context, log)
    ensures s.outcome == Emitted(DialogEvent.Waiting) <==> r.state == DialogState.Waiting
    decreases fuel, 2
  {
    match r.state
    case Start => HandleDialog(fuel, r, context, log, names)
    case Dialog => HandleDialog(fuel, r, context, log, names)
    case Waiting => Step(Emitted(DialogEvent.Waiting), r, context, log)
    case End => Step(Emitted(DialogEvent.End), r, context, log)
  }

  /**
   * `handle_dialog`: update the context, then jump, then run the command, then
   * process the line; each step looks at the line under the cursor at that
   * moment, so after a jump the first line of the target is processed without
   * its set or jump taking effect, while a command there is run.
   */
  function HandleDialog(fuel: nat, r: RunnerState, context: map<string, bool>, log: seq<Invocation>, names: set<string>): (s: Step)
    requires Valid(r) && (r.state == Start || r.state == DialogState.Dialog)
    ensures Keeps(s, r, context, log)
    ensures s.outcome != Emitted(DialogEvent.Waiting)
    decreases fuel, 1
  {
    var context' := UpdateContext(r, context);
    var r' := PerformJump(r);
    if CommandMissing(r', names) then
      Step(Panicked(CurrentLine(r').funcName), r', context', log)
    else
      ProcessEvent(fuel, r', context', ExecuteCommand(r', log), names)
  }

  /**
   * `process_event`: turn the line into an event, take the state it implies,
   * move the cursor, and then either go on (no event: back to `next_event`),
   * report End (the cursor ran off the node, even after a dialog line), or
   * report the event.
   */
  function ProcessEvent(fuel: nat, r: RunnerState, context: map<string, bool>, log: seq<Invocation>, names: set<string>): (s: Step)
    requires Valid(r) && (r.state == Start || r.state == DialogState.Dialog)
    ensures Keeps(s, r, context, log)
    ensures s.outcome != Emitted(DialogEvent.Waiting)
    decreases fuel, 0
  {
    var event := LineToEvent(CurrentLine(r), context);
    var r' := MovePointer(r.(state := EventToDialogState(event)));
    match r'.state
    case Start =>
      if fuel == 0 then Step(OutOfFuel, r', context, log)
      else Next(fuel - 1, r', context, log, names)
    case End => Step(Emitted(DialogEvent.End), r', context, log)
    case _ => Step(Emitted(event.value), r', context, log)
  }

  // ---------------------------------------------------------------------------
  // Positioning the cursor

  /** The first node with the given title, as `iter().find` finds it. */
  function FindNode(nodes: seq<Node>, title: string): (r: Option<nat>)
    ensures r.None? <==> forall i :: 0 <= i < |nodes| ==> nodes[i].title != title
    ensures r.Some? ==>
      && r.value < |nodes| && nodes[r.value].title == title
      && forall i :: 0 <= i < r.value ==> nodes[i].title != title
  {
    if nodes == [] then None
    else if nodes[0].title == title then Some(0)
    else
      match FindNode(nodes[1..], title)
      case None => None
      case Some(i) => Some(i + 1)
  }

  /** The first possibility that jumps to `decision`, as `iter_mut().find` finds it. */
  function FindPossibility(possibilities: seq<OptionPossibility>, decision: string): (r: Option<nat>)
    ensures r.None? <==> forall i :: 0 <= i < |possibilities| ==> possibilities[i].jumpToNodeTitle != decision
    ensures r.Some? ==>
      && r.value < |possibilities| && possibilities[r.value].jumpToNodeTitle == decision
      && forall i :: 0 <= i < r.value ==> possibilities[i].jumpToNodeTitle != decision
  {
    if possibilities == [] then None
    else if possibilities[0].jumpToNodeTitle == decision then Some(0)
    else
      match FindPossibility(possibilities[1..], decision)
      case None => None
      case Some(i) => Some(i + 1)
  }

  /**
   * `create_from_nodes`: the runner starts on line 0 of the first node with the
   * starting title, or fails naming that title.
   */
  function CreateFromNodes(nodes: seq<Node>, startNodeTitle: string): (result: Result<RunnerState, DialogRunnerError>)
    ensures result.Failure? <==> forall i :: 0 <= i < |nodes| ==> nodes[i].title != startNodeTitle
    ensures result.Failure? ==> result.error == StartingNodeNotFound(startNodeTitle)
    ensures result.Success? ==>
      && result.value.nodes == nodes && result.value.index == 0 && result.value.state == DialogState.Start
      && result.value.node < |nodes| && nodes[result.value.node].title == startNodeTitle
      && (forall i :: 0 <= i < result.value.node ==> nodes[i].title != startNodeTitle)
    ensures result.Success? && WellFormed(nodes) ==> Valid(result.value)
  {
    match FindNode(nodes, startNodeTitle)
    case None => Failure(StartingNodeNotFound(startNodeTitle))
    case Some(i) => Success(RunnerState(nodes, i, 0, DialogState.Start))
  }

  /** The waiting runner's option line offers a possibility that jumps to `decision` (else `expect` panics). */
  predicate Offered(r: RunnerState, decision: string)
    requires Valid(r) && r.state == DialogState.Waiting
  {
    exists p <- CurrentLine(r).possibilities :: p.jumpToNodeTitle == decision
  }

  /**
   * `update_used`: the first possibility of the current option line that jumps
   * to `decision` is marked used. Nothing else changes: no other possibility,
   * no other line, no title and not the cursor.
   */
  function UpdateUsed(r: RunnerState, decision: string): (r': RunnerState)
    requires Valid(r) && r.state == DialogState.Waiting && Offered(r, decision)
    ensures Valid(r')
    ensures r' == r.(nodes := r'.nodes) && |r'.nodes| == |r.nodes|
    ensures forall i :: 0 <= i < |r.nodes| ==> r'.nodes[i].title == r.nodes[i].title
    ensures forall i :: 0 <= i < |r.nodes| && i != r.node ==> r'.nodes[i] == r.nodes[i]
    ensures |r'.nodes[r.node].lines| == |r.nodes[r.node].lines|
    ensures forall j :: 0 <= j < |r.nodes[r.node].lines| && j != r.index ==>
      r'.nodes[r.node].lines[j] == r.nodes[r.node].lines[j]
    ensures
      var ps, ps' := CurrentLine(r).possibilities, CurrentLine(r').possibilities;
      var k := FindPossibility(ps, decision).value;
      && CurrentLine(r').OptionLine? && CurrentLine(r').speaker == CurrentLine(r).speaker
      && |ps'| == |ps|
      && (forall j :: 0 <= j < |ps| ==> ps'[j] == ps[j].(used := ps'[j].used))
      && (forall j :: 0 <= j < |ps| ==> (ps'[j].used <==> ps[j].used || j == k))
  {
    var line := CurrentLine(r);
    var ps := line.possibilities;
    var k := FindPossibility(ps, decision).value;
    var node := r.nodes[r.node];
    var line' := OptionLine(line.speaker, ps[k := ps[k].(used := true)]);
    var nodes' := r.nodes[r.node := node.(lines := node.lines[r.index := line'])];
    assert WellFormed(nodes') by {
      forall i, j | 0 <= i < |nodes'| && 0 <= j < |nodes'[i].lines| && nodes'[i].lines[j].JumpLine?
        ensures nodes'[i].lines[j].node < |nodes'|
      {
        assert nodes'[i].lines[j] == r.nodes[i].lines[j];
      }
    }
    r.(nodes := nodes')
  }

  /**
   * `make_decision`: only a waiting runner decides. It marks the chosen
   * possibility used, and then moves to line 0 of the first node with that
   * title; when there is none it fails with `UnknownNodeChosen`, the flag
   * already set and the cursor where it was.
   */
  function MakeDecision(r: RunnerState, decision: string): (out: (Result<(), DialogRunnerError>, RunnerState))
    requires Valid(r) && (r.state == DialogState.Waiting ==> Offered(r, decision))
    ensures Valid(out.1) && |out.1.nodes| == |r.nodes|
    ensures r.state != DialogState.Waiting ==>
      out == (Failure(WrongState(r.state, DialogState.Waiting)), r)
    ensures r.state == DialogState.Waiting ==>
      && out.1.nodes == UpdateUsed(r, decision).nodes
      && (out.0.Success? <==> exists i :: 0 <= i < |r.nodes| && r.nodes[i].title == decision)
    ensures r.state == DialogState.Waiting && out.0.Failure? ==>
      && out.0.error == UnknownNodeChosen(decision)
      && out.1 == r.(nodes := out.1.nodes)
    ensures out.0.Success? ==>
      && out.1.index == 0 && out.1.state == DialogState.Start
      && out.1.nodes[out.1.node].title == decision
      && forall i :: 0 <= i < out.1.node ==> r.nodes[i].title != decision
  {
    if r.state == DialogState.Waiting then
      var r' := UpdateUsed(r, decision);
      match FindNode(r'.nodes, decision)
      case None => (Failure(UnknownNodeChosen(decision)), r')
      case Some(i) => (Success(()), r'.(node := i, index := 0, state := DialogState.Start))
    else
      (Failure(WrongState(r.state, DialogState.Waiting)), r)
  }

  /** The error text of `reset_to`. */
  const ResetError := "Could not reset to selected node(wrong node title?"

  /**
   * `reset_to`: from any state, line 0 of the first node with the title, in
   * Start; an unknown title fails and leaves the runner as it was.
   */
  function ResetTo(r: RunnerState, nodeTitle: string): (out: (Result<(), string>, RunnerState))
    requires Valid(r)
    ensures Valid(out.1) && out.1.nodes == r.nodes
    ensures out.0.Failure? <==> forall i :: 0 <= i < |r.nodes| ==> r.nodes[i].title != nodeTitle
    ensures out.0.Failure? ==> out == (Failure(ResetError), r)
    ensures out.0.Success? ==>
      && out.1.index == 0 && out.1.state == DialogState.Start
      && out.1.nodes[out.1.node].title == nodeTitle
      && forall i :: 0 <= i < out.1.node ==> r.nodes[i].title != nodeTitle
  {
    match FindNode(r.nodes, nodeTitle)
    case None => (Failure(ResetError), r)
    case Some(i) => (Success(()), r.(node := i, index := 0, state := DialogState.Start))
  }
}

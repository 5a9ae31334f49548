/**
 * `DialogRunner` (src/dialog_runner/runner.rs) as a class whose methods update
 * its fields in place, each proved to do what its function in `RunnerSpec`
 * says. The runner is handed the state context and the command registry it
 * uses, as the source passes them to `next_event`.
 */
module Runner {
  import opened Wrappers
  import opened ScriptModel
  import opened RunnerComponents
  import RS = RunnerSpec
  import Context

  /**
   * `COMMAND_REGISTRY`: the names of the registered commands. What a command
   * does to the host is not modelled; each call is recorded in `log`.
   */
  class CommandRegistry {
    const names: set<string>
    ghost var log: seq<RS.Invocation>

    constructor (names: set<string>)
      ensures this.names == names && log == []
    {
      this.names := names;
      log := [];
    }

    /** Look the command up and call it with its arguments; the lookup's `unwrap` needs it registered. */
    method Invoke(funcName: string, args: seq<string>)
      requires funcName in names
      modifies this
      ensures log == old(log) + [RS.Invocation(funcName, args)]
    {
      log := log + [RS.Invocation(funcName, args)];
    }
  }

  class DialogRunner {
    var nodes: seq<Node>
    var currentNode: nat
    var currentLineIndex: nat
    var dialogState: DialogState

    function State(): RS.RunnerState
      reads this
    {
      RS.RunnerState(nodes, currentNode, currentLineIndex, dialogState)
    }

    /** The event a call hands back: the emitted event, or nothing when the fuel ran out. */
    static function EventOf(outcome: RS.Outcome): Option<DialogEvent>
    {
      match outcome
      case Emitted(e) => Some(e)
      case _ => None
    }

    /** The runner, the context and the registry's log are where `s` says, and `event` is its event. */
    ghost predicate Reached(s: RS.Step, context: Context.MapContext, registry: CommandRegistry, event: Option<DialogEvent>)
      reads this, context, registry
    {
      State() == s.runner && context.store == s.context && registry.log == s.log && event == EventOf(s.outcome)
    }

    constructor (nodes: seq<Node>, node: nat)
      ensures State() == RS.RunnerState(nodes, node, 0, DialogState.Start)
    {
      this.nodes := nodes;
      currentNode := node;
      currentLineIndex := 0;
      dialogState := DialogState.Start;
    }

    /** `create_from_nodes`. */
    static method CreateFromNodes(nodes: seq<Node>, startNodeTitle: string)
      returns (result: Result<DialogRunner, DialogRunnerError>)
      ensures match RS.CreateFromNodes(nodes, startNodeTitle)
              case Failure(e) => result == Failure(e)
              case Success(s) => result.Success? && fresh(result.value) && result.value.State() == s
    {
      match RS.FindNode(nodes, startNodeTitle)
      case None =>
        result := Failure(StartingNodeNotFound(startNodeTitle));
      case Some(i) =>
        var runner := new DialogRunner(nodes, i);
        result := Success(runner);
    }

    /** `next_event`. */
    method NextEvent(fuel: nat, context: Context.MapContext, registry: CommandRegistry)
      returns (event: Option<DialogEvent>)
      requires RS.Valid(State())
      requires !RS.Next(fuel, State(), context.store, registry.log, registry.names).outcome.Panicked?
      modifies this, context, registry
      ensures Reached(RS.Next(fuel, old(State()), old(context.store), old(registry.log), registry.names),
                      context, registry, event)
      decreases fuel, 2
    {
      match dialogState
      case Start =>
        event := HandleDialog(fuel, context, registry);
      case Dialog =>
        event := HandleDialog(fuel, context, registry);
      case Waiting =>
        event := Some(DialogEvent.Waiting);
      case End =>
        event := Some(DialogEvent.End);
    }

    /** `make_decision`. */
    method MakeDecision(decision: string) returns (result: Result<(), DialogRunnerError>)
      requires RS.Valid(State())
      requires dialogState == DialogState.Waiting ==> RS.Offered(State(), decision)
      modifies this
      ensures (result, State()) == RS.MakeDecision(old(State()), decision)
    {
      if dialogState == DialogState.Waiting {
        UpdateUsed(decision);
        match RS.FindNode(nodes, decision)
        case None =>
          result := Failure(UnknownNodeChosen(decision));
        case Some(i) =>
          currentNode := i;
          currentLineIndex := 0;
          dialogState := DialogState.Start;
          result := Success(());
      } else {
        result := Failure(WrongState(dialogState, DialogState.Waiting));
      }
    }

    /** `reset_to`. */
    method ResetTo(nodeTitle: string) returns (result: Result<(), string>)
      requires RS.Valid(State())
      modifies this
      ensures (result, State()) == RS.ResetTo(old(State()), nodeTitle)
    {
      match RS.FindNode(nodes, nodeTitle)
      case None =>
        result := Failure(RS.ResetError);
      case Some(i) =>
        currentNode := i;
        currentLineIndex := 0;
        dialogState := DialogState.Start;
        result := Success(());
    }

    /** `handle_dialog`: the four steps, in their fixed order. */
    method HandleDialog(fuel: nat, context: Context.MapContext, registry: CommandRegistry)
      returns (event: Option<DialogEvent>)
      requires RS.Valid(State()) && (dialogState == DialogState.Start || dialogState == DialogState.Dialog)
      requires !RS.HandleDialog(fuel, State(), context.store, registry.log, registry.names).outcome.Panicked?
      modifies this, context, registry
      ensures Reached(RS.HandleDialog(fuel, old(State()), old(context.store), old(registry.log), registry.names),
                      context, registry, event)
      decreases fuel, 1
    {
      UpdateContext(context);
      PerformJump();
      ExecuteCommand(registry);
      event := ProcessEvent(fuel, context, registry);
    }

    /** `update_used`: find the first possibility that jumps to `decision` and set its flag. */
    method UpdateUsed(decision: string)
      requires RS.Valid(State()) && dialogState == DialogState.Waiting && RS.Offered(State(), decision)
      modifies this
      ensures State() == RS.UpdateUsed(old(State()), decision)
    {
      var node := nodes[currentNode];
      var line := node.lines[currentLineIndex];
      var possibilities := line.possibilities;
      var k := 0;
      while k < |possibilities| && possibilities[k].jumpToNodeTitle != decision
        invariant k <= |possibilities|
        invariant forall j :: 0 <= j < k ==> possibilities[j].jumpToNodeTitle != decision
      {
        k := k + 1;
      }
      assert k < |possibilities| && k == RS.FindPossibility(possibilities, decision).value;
      var possibility := possibilities[k].(used := true);
      line := line.(possibilities := possibilities[k := possibility]);
      nodes := nodes[currentNode := node.(lines := node.lines[currentLineIndex := line])];
    }

    /** `process_event`. */
    method ProcessEvent(fuel: nat, context: Context.MapContext, registry: CommandRegistry)
      returns (event: Option<DialogEvent>)
      requires RS.Valid(State()) && (dialogState == DialogState.Start || dialogState == DialogState.Dialog)
      requires !RS.ProcessEvent(fuel, State(), context.store, registry.log, registry.names).outcome.Panicked?
      modifies this, context, registry
      ensures Reached(RS.ProcessEvent(fuel, old(State()), old(context.store), old(registry.log), registry.names),
                      context, registry, event)
      decreases fuel, 0
    {
      var lineEvent := RS.LineToEvent(RS.CurrentLine(State()), context.store);
      dialogState := RS.EventToDialogState(lineEvent);
      MovePointer();
      match dialogState
      case Start =>
        if fuel == 0 {
          event := None;
        } else {
          event := NextEvent(fuel - 1, context, registry);
        }
      case End =>
        event := Some(DialogEvent.End);
      case _ =>
        event := lineEvent;
    }

    /** `update_context`. */
    method UpdateContext(context: Context.MapContext)
      requires RS.OnLine(State())
      modifies context
      ensures context.store == RS.UpdateContext(State(), old(context.store))
    {
      match RS.CurrentLine(State())
      case SetLine(variableName, value) =>
        context.SetValue(variableName, value);
      case _ =>
    }

    /** `perform_jump`. */
    method PerformJump()
      requires RS.Valid(State()) && (dialogState == DialogState.Start || dialogState == DialogState.Dialog)
      modifies this
      ensures State() == RS.PerformJump(old(State()))
    {
      match RS.CurrentLine(State())
      case JumpLine(node, _) =>
        currentNode := node;
        currentLineIndex := 0;
      case _ =>
    }

    /** `execute_command`. */
    method ExecuteCommand(registry: CommandRegistry)
      requires RS.OnLine(State()) && !RS.CommandMissing(State(), registry.names)
      modifies registry
      ensures registry.log == RS.ExecuteCommand(State(), old(registry.log))
    {
      match RS.CurrentLine(State())
      case CommandLine(funcName, args) =>
        registry.Invoke(funcName, args);
      case _ =>
    }

    /** `move_pointer`. */
    method MovePointer()
      requires currentNode < |nodes|
      modifies this
      ensures State() == RS.MovePointer(old(State()))
    {
      if dialogState != DialogState.Waiting {
        currentLineIndex := currentLineIndex + 1;
        if currentLineIndex >= |nodes[currentNode].lines| {
          dialogState := DialogState.End;
        }
      }
    }
  }
}

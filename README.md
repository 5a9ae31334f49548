# bevy-yarnspinner in Dafny

A model of the core of bevy-yarnspinner, a Yarn Spinner–style dialog engine
for the Bevy game engine, with proofs about it. The model covers three parts:

- **The dialog runner** (`src/dialog_runner/runner.rs`). `DialogRunner` walks
  the lines of a node and turns them into events: dialog, a set of options, or
  `Waiting` / `End`. Along the way it writes variables into a state context,
  calls registered commands, and follows jumps. `make_decision` and `reset_to`
  move the runner to a different node. `runner_spec.dfy` gives the meaning of
  every operation as functions on a `RunnerState` value. `runner.dfy` is the
  class with fields updated in place, and each method is proved to do what its
  function says. `runner_properties.dfy` proves the properties that span
  several calls, plus some complete concrete runs.
- **The state context** (`src/dialog_runner/context.rs`). A boolean store
  keyed by variable name (`context.dfy`).
- **Conversion of the pest parse tree into nodes and lines**
  (`src/parsing/yarn_spinner_parsing.rs`). The grammar itself is not modelled.
  A parse-tree pair is a rule, the text it matched, and its children
  (`parse_tree.dfy`). Each `parse_*` function is given by a function saying
  what it computes, and by a method running the source's loops that is proved
  to compute exactly that (`yarn_spinner_parsing.dfy`).
  `parsing_properties.dfy` states what those functions promise.

The runner is written against a different revision of the line types than the
one the parser produces. In the runner's revision, conditions are typed
(`Equal`/`NotEqual` with a boolean), options name a `jump_to_node_title`, and
a jump carries the node it resolves to. `script_model.dfy` models that
revision, with nodes as indices into the runner's node sequence. The parser's
output keeps the string-typed revision of `src/parsing/components.rs`
(`parsing_components.dfy`). No code that converts one revision into the other
exists, and none is modelled.

In a few places the code behaves in ways a reader may not expect; the model
follows the code:

- The four steps of `handle_dialog` always run in the same order: update the
  context, jump, run the command, process the event. Each step looks at
  whatever line is current at that moment. A jump therefore does not restart
  the transition. The first line of the target is processed in the same call:
  a set or jump there has no effect, but a command there is run.
  (`RunnerProperties.SetLineAfterJumpPassedOver`, `RunnerProperties.CommandAfterJumpRuns`)
- A dialog line that is the last line of its node is reported as `End`, not as
  dialog. (`RunnerProperties.DialogOnLastLineEnds`)
- `make_decision` marks the chosen possibility as used before it looks the
  node up. A decision naming an unknown node therefore fails but still sets
  the flag. (`RunnerProperties.UnknownDecisionStillMarksUsed`)
- A parse failure makes `load_from_file` panic; it does not return an error.
  Every top-level pair the parse returns becomes a node, and a pair that is
  not a section becomes a node with an empty title and no lines. Which pairs
  the parse returns at the top level depends on the grammar file, which is not
  part of this model; if its `yarnspinner` rule is silent and ends in `EOI`,
  the end-of-input pair is one of them and gives such an empty node.
- Jump targets are never resolved or checked for duplicate titles.

## Model

| member | source | states |
|---|---|---|
| Context.Get | src/dialog_runner/context.rs:9-11 | returns nothing exactly when the key is unset, and `Some(v)` exactly when the key is stored with value `v` |
| Context.GetAfterSet | src/dialog_runner/context.rs:13-15 | after setting a key, reading it gives the value just set, replacing any earlier value |
| Context.GetAfterSetOther | src/dialog_runner/context.rs:13-15 | setting a key leaves every other key's value unchanged |
| Context.MapContext.GetValue | src/dialog_runner/context.rs:9-11 | reading the context changes nothing and gives nothing exactly when the key is unset, otherwise the stored value |
| Context.MapContext.SetValue | src/dialog_runner/context.rs:13-15 | inserts into the store in place; afterwards the key reads back the value and every other key reads as before |
| RunnerSpec.CurrentLine | src/dialog_runner/runner.rs:115-119 | the line under the cursor, which is a line of the current node |
| RunnerSpec.PassesCondition | src/dialog_runner/runner.rs:154-165 | no condition passes; a condition on an unset variable fails whatever its comparison; `Equal` passes exactly when the stored value equals the condition's value, `NotEqual` exactly when it differs |
| RunnerSpec.LineToEvent | src/dialog_runner/runner.rs:121-152 | a dialog line gives a dialog event with speaker, text and tags copied; an option line gives its speaker and the options that pass; every other line gives no event |
| RunnerSpec.EventToDialogState | src/dialog_runner/runner.rs:205-220 | no event gives Start, a dialog event gives Dialog, options or Waiting give Waiting, End gives End (each an if-and-only-if) |
| RunnerSpec.UpdateContext | src/dialog_runner/runner.rs:167-175 | a set line writes its value under its variable and leaves other variables as they were; any other line leaves the context unchanged; no key is lost |
| RunnerSpec.PerformJump | src/dialog_runner/runner.rs:177-182 | a jump line moves the cursor to line 0 of its node and keeps the state; any other line changes nothing; the runner stays valid |
| RunnerSpec.ExecuteCommand | src/dialog_runner/runner.rs:184-191 | a command line adds exactly one call with its name and arguments to the log; any other line runs nothing |
| RunnerSpec.MovePointer | src/dialog_runner/runner.rs:193-203 | in Waiting nothing moves; otherwise the index goes up by one, and the state becomes End exactly when the index passes the node's last line (or it already was End) |
| RunnerSpec.Next | src/dialog_runner/runner.rs:45-51 | keeps the runner valid over the same nodes, the log only grows, the context loses no key, an emitted event agrees with where the runner stopped, and Waiting is returned exactly when the runner was waiting |
| RunnerSpec.HandleDialog | src/dialog_runner/runner.rs:80-85 | the same invariants as `Next`; a dialog step never returns Waiting |
| RunnerSpec.ProcessEvent | src/dialog_runner/runner.rs:104-113 | the same invariants as `Next`: after a dialog event the runner is in Dialog just past that dialog line; after options it waits on the option line whose passing options were shown |
| RunnerSpec.FindNode | src/dialog_runner/runner.rs:29-32 | nothing exactly when no node has the title; otherwise the index of the first node with that title |
| RunnerSpec.FindPossibility | src/dialog_runner/runner.rs:96-99 | nothing exactly when no possibility jumps to the decision; otherwise the first one that does |
| RunnerSpec.CreateFromNodes | src/dialog_runner/runner.rs:28-42 | fails with `StartingNodeNotFound(title)` exactly when no node has the title; otherwise line 0 of the first such node, in Start, and valid when the nodes are well formed |
| RunnerSpec.UpdateUsed | src/dialog_runner/runner.rs:87-102 | only the first possibility that jumps to the decision gets `used` set; no other possibility, line, node, title or cursor field changes; the runner stays valid |
| RunnerSpec.MakeDecision | src/dialog_runner/runner.rs:53-67 | outside Waiting: `WrongState(current, Waiting)` and nothing changes; in Waiting: the flag is set, and it succeeds exactly when some node has the title, landing on line 0 of the first such node in Start, otherwise `UnknownNodeChosen` with the cursor unchanged |
| RunnerSpec.ResetTo | src/dialog_runner/runner.rs:69-78 | from any state, line 0 of the first node with the title, in Start; an unknown title fails with the source's message and leaves the runner unchanged |
| Runner.CommandRegistry.Invoke | src/dialog_runner/runner.rs:186-189 | a registered command is called once with its arguments, recorded at the end of the log |
| Runner.DialogRunner.CreateFromNodes | src/dialog_runner/runner.rs:28-43 | fails as `RunnerSpec.CreateFromNodes` does, or returns a fresh runner in exactly the state it gives |
| Runner.DialogRunner.NextEvent | src/dialog_runner/runner.rs:45-51 | leaves the runner, the context and the command log exactly as `RunnerSpec.Next` says, and returns its event |
| Runner.DialogRunner.MakeDecision | src/dialog_runner/runner.rs:53-67 | result and new state are those of `RunnerSpec.MakeDecision` |
| Runner.DialogRunner.ResetTo | src/dialog_runner/runner.rs:69-78 | result and new state are those of `RunnerSpec.ResetTo` |
| Runner.DialogRunner.HandleDialog | src/dialog_runner/runner.rs:80-85 | runs the four steps in their fixed order and ends where `RunnerSpec.HandleDialog` says |
| Runner.DialogRunner.UpdateUsed | src/dialog_runner/runner.rs:87-102 | the search loop finds the first matching possibility and sets its flag in place, giving `RunnerSpec.UpdateUsed` |
| Runner.DialogRunner.ProcessEvent | src/dialog_runner/runner.rs:104-113 | ends where `RunnerSpec.ProcessEvent` says, going back to `NextEvent` when no event was produced |
| Runner.DialogRunner.UpdateContext | src/dialog_runner/runner.rs:167-175 | the context's store becomes `RunnerSpec.UpdateContext` of the old one |
| Runner.DialogRunner.PerformJump | src/dialog_runner/runner.rs:177-182 | the cursor becomes the one `RunnerSpec.PerformJump` gives |
| Runner.DialogRunner.ExecuteCommand | src/dialog_runner/runner.rs:184-191 | the registry's log becomes `RunnerSpec.ExecuteCommand` of the old one |
| Runner.DialogRunner.MovePointer | src/dialog_runner/runner.rs:193-203 | the cursor and state become those `RunnerSpec.MovePointer` gives |
| RunnerProperties.VisibleAppend | src/dialog_runner/runner.rs:136-144 | the option filter works piece by piece: filtering `a + b` gives the options of `a` followed by those of `b`, so order is kept |
| RunnerProperties.VisibleExactly | src/dialog_runner/runner.rs:136-144 | an option is shown if and only if some possibility that passes its condition gives it (text, target title, used flag) |
| RunnerProperties.VisibleAllPass | src/dialog_runner/runner.rs:136-144 | when every possibility passes, all are shown, one for one and in order |
| RunnerProperties.ConditionalFiltering | src/dialog_runner/runner.rs:136-144 | with `flag` true, of two options guarded by `flag == true` and `flag == false` only the first is shown |
| RunnerProperties.NextOneMore | src/dialog_runner/runner.rs:104-113 | a call that did not run out of fuel gives the same result with one more unit |
| RunnerProperties.HandleDialogOneMore | src/dialog_runner/runner.rs:80-85 | the same for a dialog step |
| RunnerProperties.ProcessEventOneMore | src/dialog_runner/runner.rs:104-113 | the same for processing one line |
| RunnerProperties.NextFuelMonotone | src/dialog_runner/runner.rs:45-51 | a call that finishes with some fuel finishes identically with any more fuel, so fuel only bounds the recursion |
| RunnerProperties.Idle | src/dialog_runner/runner.rs:45-51 | in Waiting or End, `next_event` returns that state's event and changes nothing |
| RunnerProperties.EndIsFinal | src/dialog_runner/runner.rs:108-110 | once End is reported, every later call reports End and changes nothing |
| RunnerProperties.LoopFromJump | src/dialog_runner/runner.rs:104-113 | in the loop `[set x, jump to itself]`, every call starting from the jump runs out of fuel |
| RunnerProperties.NeverStops | src/dialog_runner/runner.rs:104-113 | `[set x, jump to itself]` never produces an event, whatever the fuel |
| RunnerProperties.DialogLineShown | src/dialog_runner/runner.rs:104-113 | for every runner on a dialog line that is not the last of its node, processing it emits that dialog (speaker, text, tags) and leaves the runner in Dialog on the next line, with context and log unchanged |
| RunnerProperties.SilentLinePassed | src/dialog_runner/runner.rs:104-113 | for every runner on a line that gives no event and is not the last of its node, processing it moves to the next line in Start and continues as `next_event` with one unit of fuel less |
| RunnerProperties.SetLineApplied | src/dialog_runner/runner.rs:80-85 | for every runner on a set line that is not the last of its node, the step writes the variable first and then continues as `next_event` on the next line |
| RunnerProperties.DialogOnLastLineEnds | src/dialog_runner/runner.rs:104-113 | for every runner on a dialog line that is the last line of its node, processing it reports End and not the dialog |
| RunnerProperties.SetLineAfterJumpPassedOver | src/dialog_runner/runner.rs:80-85 | for every jump whose target starts with a set line (and has a second line), the step goes on from the target's second line with the context unchanged: the set is never applied |
| RunnerProperties.CommandAfterJumpRuns | src/dialog_runner/runner.rs:80-85 | for every jump whose target starts with a registered command, the jumping step logs that command once with its arguments and then processes the target's first line |
| RunnerProperties.JumpPassesOverSetLine | src/dialog_runner/runner.rs:80-85 | an instance of the general lemma: on a two-node script, `x` is never written and the first dialog line after it is shown |
| RunnerProperties.JumpRunsCommand | src/dialog_runner/runner.rs:80-85 | an instance of the general lemma: on a two-node script, the command is logged once and the first dialog line after it is shown |
| RunnerProperties.LastDialogLineReportsEnd | src/dialog_runner/runner.rs:193-203 | an instance of the general lemma: a node of one dialog line reports End |
| RunnerProperties.ConversationStarts | src/dialog_runner/runner.rs:28-42 | the sample conversation starts on line 0 of "Start" |
| RunnerProperties.ConversationSaysHello | src/dialog_runner/runner.rs:45-51 | the first call sets `met` and shows the narrator's hello |
| RunnerProperties.ConversationOffersChoices | src/dialog_runner/runner.rs:121-152 | the second call jumps and shows both options, in order, because `met` is true |
| RunnerProperties.ConversationDecides | src/dialog_runner/runner.rs:53-67 | deciding "Start" marks "Stay" used and goes back to line 0 of "Start" |
| RunnerProperties.ConversationSaysHelloAgain | src/dialog_runner/runner.rs:45-51 | after the decision the next call shows the hello again |
| RunnerProperties.UnknownDecisionStillMarksUsed | src/dialog_runner/runner.rs:55-60 | deciding a title that no node has fails with `UnknownNodeChosen`, leaves the cursor on the options, and still marks the possibility used |
| ParseTree.First | src/parsing/yarn_spinner_parsing.rs:201-207 | nothing exactly when no child has the rule; otherwise the first child that has it |
| ParseTree.LastNone | src/parsing/yarn_spinner_parsing.rs:52-57 | the last-occurrence search finds nothing exactly when no child has the rule |
| ParseTree.LastOccurrence | src/parsing/yarn_spinner_parsing.rs:52-57 | what the search finds has the rule, and no later child has it |
| ParseTree.LastAppend | src/parsing/yarn_spinner_parsing.rs:52-57 | an occurrence in a later part overrides every earlier one |
| YarnSpinnerParsing.LoadFromFile | src/parsing/yarn_spinner_parsing.rs:10-13 | one node per top-level pair, in order: each section gives its title and parsed lines, and any other pair gives an empty node |
| YarnSpinnerParsing.ParseContent | src/parsing/yarn_spinner_parsing.rs:37-46 | set, command, dialog, option and jump lines come from exactly the rule of the same name |
| YarnSpinnerParsing.ParseJumpLine | src/parsing/yarn_spinner_parsing.rs:200-210 | a jump naming the text of the first `title` child |
| YarnSpinnerParsing.ParseSection | src/parsing/yarn_spinner_parsing.rs:15-35 | the loop computes the node `SectionOf` describes |
| YarnSpinnerParsing.ParseSectionField | src/parsing/yarn_spinner_parsing.rs:23-31 | one pass of the loop over a section's children keeps its invariant: the title so far, and the lines of the contents so far |
| YarnSpinnerParsing.ParseSectionContent | src/parsing/yarn_spinner_parsing.rs:25-29 | the inner loop appends one parsed line per content, in order |
| YarnSpinnerParsing.ParseContentLine | src/parsing/yarn_spinner_parsing.rs:37-46 | dispatches on the rule to the loop of that line kind and computes `ParseContent` |
| YarnSpinnerParsing.ParseSetLine | src/parsing/yarn_spinner_parsing.rs:48-64 | the loop computes `SetLineOf` |
| YarnSpinnerParsing.ParseCommandLine | src/parsing/yarn_spinner_parsing.rs:66-86 | the loop computes `CommandLineOf` |
| YarnSpinnerParsing.ParseArgs | src/parsing/yarn_spinner_parsing.rs:73-80 | the inner loop appends the text of every `arg`, in order |
| YarnSpinnerParsing.ParseDialogLine | src/parsing/yarn_spinner_parsing.rs:88-107 | the loop computes `DialogLineOf` |
| YarnSpinnerParsing.ParseTag | src/parsing/yarn_spinner_parsing.rs:109-122 | the loop computes `TagOf` |
| YarnSpinnerParsing.ParseOptionLines | src/parsing/yarn_spinner_parsing.rs:124-178 | the loop computes `OptionLinesOf` |
| YarnSpinnerParsing.ParseOptionLine | src/parsing/yarn_spinner_parsing.rs:130-169 | the body for one `option_line` computes `PossibilityOf` |
| YarnSpinnerParsing.ReadOptionDialogLine | src/parsing/yarn_spinner_parsing.rs:137-147 | the text and condition after an option's dialog part are the last `dialog` and `if_statement` read so far |
| YarnSpinnerParsing.ReadOptionJumpLine | src/parsing/yarn_spinner_parsing.rs:149-158 | the target after an option's jump part is the last `title` read so far |
| YarnSpinnerParsing.ParseIfStatement | src/parsing/yarn_spinner_parsing.rs:180-198 | the loop computes `ConditionOf` |
| ParsingProperties.FieldIsLast | src/parsing/yarn_spinner_parsing.rs:52-57 | a field that is read in a loop is "" when no child has its rule, and otherwise the text of the last child that has it |
| ParsingProperties.ContentAt | src/parsing/yarn_spinner_parsing.rs:25-29 | the line at each index is the parse of the content pair at that index, and there are as many lines as pairs |
| ParsingProperties.ContentsInOrder | src/parsing/yarn_spinner_parsing.rs:25-29 | one parsed line per content pair, in order |
| ParsingProperties.TagsInOrder | src/parsing/yarn_spinner_parsing.rs:97 | one tag per `tags` pair, in order |
| ParsingProperties.PossibilityAt | src/parsing/yarn_spinner_parsing.rs:128-171 | the possibility at each index is the one the `option_line` at that index gives, and there are as many possibilities as `option_line`s |
| ParsingProperties.PossibilitiesInOrder | src/parsing/yarn_spinner_parsing.rs:128-171 | one possibility per `option_line` pair, in order |
| ParsingProperties.SectionParsed | src/parsing/yarn_spinner_parsing.rs:15-35 | a section's title is its last `title` text; its lines are the parsed contents of its `section_content` children, one for one and in document order; any other pair gives an empty node |
| ParsingProperties.SetLineParsed | src/parsing/yarn_spinner_parsing.rs:48-64 | the value is true exactly when the last `boolean_value` reads "true"; with none it is false, and with no `variable_name` the name is "" |
| ParsingProperties.CommandLineParsed | src/parsing/yarn_spinner_parsing.rs:66-86 | the arguments are the texts of the `arg` pairs under the `args` children, one for one and in order, and the name is the `function_name` text |
| ParsingProperties.DialogLineParsed | src/parsing/yarn_spinner_parsing.rs:88-107 | speaker and text are "" when absent; one tag per `tags` child, in order, with its name and value |
| ParsingProperties.OptionLinesParsed | src/parsing/yarn_spinner_parsing.rs:124-178 | one possibility per `option_line`, in order, none of them used, and the block's speaker always "" |
| ParsingProperties.PossibilityCondition | src/parsing/yarn_spinner_parsing.rs:137-147 | an option has a condition exactly when one of its dialog parts holds an `if_statement`, and then it is the last one, with its texts copied |

## Left out

- The pest grammar and the parse itself are not part of this model. The parser starts from the tree a successful parse returns, so the panic on a failed parse is not modelled.
- Every `unreachable!()`, `expect` and `unwrap` in the parser is a precondition on the tree's shape (the `...Shape` predicates). This includes `parse::<bool>()`, which is why a `boolean_value` of a set line must read "true" or "false".
- The runner's nodes are owned by the runner and referred to by index, standing in for `Arc<RwLock<…>>` and `Weak` handles. Two runners sharing one node graph, and so sharing `used` flags, is not modelled. Lock poisoning is not modelled either.
- RunnerSpec.Next: the recursion `next_event` → `handle_dialog` → `process_event` → `next_event` is bounded by fuel. `OutOfFuel` for one fuel value only means the call needed more recursion than that fuel allows. A call the source would continue forever is one that gives `OutOfFuel` at every fuel, as `RunnerProperties.NeverStops` shows for a self-loop. `RunnerProperties.NextFuelMonotone` shows that more fuel never changes a call that finishes.
- RunnerSpec.WellFormed: every node of the runner must have a line, and every jump anywhere in it must name a node of the runner. The source panics only when the cursor reaches an empty node or a jump is executed, so a node set with an empty node or a dangling jump that is never visited runs in the source but is excluded here. This also excludes the untitled, empty node the parser makes for a non-section pair. The runner's methods require a valid runner.
- Runner.DialogRunner.NextEvent: a command line naming an unregistered command panics in the source. The spec reports it as `Panicked`, and the class methods require that it does not happen.
- `COMMAND_REGISTRY` is a `Mutex` inside a `lazy_static`, and each command handler has its own effect on Bevy's `Commands`. The model keeps only the set of registered names and a log of calls.
- `StateContext` is a trait. Only its `HashMap<String, bool>` implementation is modelled.
- The `Display` messages of `DialogRunnerError` are not modelled. The variants and their payloads are.
- The timers and Bevy components in `src/dialog_runner/components.rs` are not modelled: `DialogEventOwnership`, `DialogEventTimer`, `DialogEventBundle`.
- The asset loader (`src/asset/asset.rs`), the Bevy plugin and the command-registration derive macro are not part of this model.
- Converting the parser's string-typed lines into the runner's typed lines is not modelled, because no such code exists. Resolving jump targets and rejecting duplicate titles are left out for the same reason.

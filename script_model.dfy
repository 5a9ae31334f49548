/**
 * The typed script the dialog runner reads (src/dialog_runner/runner.rs works
 * against this revision of the line types): conditions carry a comparison and
 * a boolean, options name their target by title, and a jump carries the node
 * it resolves to. Node handles (`Arc`/`Weak`) are indices into the runner's
 * node sequence.
 */
module ScriptModel {
  import opened Wrappers
  import PC = ParsingComponents

  datatype ConditionType = Equal | NotEqual

  datatype Condition = Condition(variableName: string, condition: ConditionType, value: bool)

  datatype OptionPossibility =
    OptionPossibility(text: string, jumpToNodeTitle: string, condition: Option<Condition>, used: bool)

  datatype Line =
    | SetLine(variableName: string, value: bool)
    | CommandLine(funcName: string, args: seq<string>)
    | DialogLine(speaker: string, text: string, tags: seq<PC.Tag>)
    | JumpLine(node: nat, nodeTitle: string)
    | OptionLine(speaker: string, possibilities: seq<OptionPossibility>)

  datatype Node = Node(title: string, lines: seq<Line>)
}

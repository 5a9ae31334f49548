/**
 * The script model produced by the parser (src/parsing/components.rs).
 * In this revision a condition is three strings and a jump names its
 * target node by title only.
 */
module ParsingComponents {
  import opened Wrappers

  datatype Condition = Condition(variableName: string, condition: string, value: string)

  datatype Tag = Tag(name: string, value: string)

  datatype OptionPossibility = OptionPossibility(
    text: string,
    jumpToNode: string,
    condition: Option<Condition>,
    used: bool)

  datatype LineType =
    | SetLine(variableName: string, value: bool)
    | CommandLine(funcName: string, args: seq<string>)
    | DialogLine(speaker: string, text: string, tags: seq<Tag>)
    | JumpLine(nodeTitle: string)
    | OptionLine(speaker: string, possibilities: seq<OptionPossibility>)

  datatype YarnSpinnerNode = YarnSpinnerNode(title: string, lines: seq<LineType>)
}

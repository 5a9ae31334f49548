/**
 * The runner's states, events and errors
 * (src/dialog_runner/components.rs, src/dialog_runner/dialog_runner_error.rs).
 */
module RunnerComponents {
  import PC = ParsingComponents

  datatype DialogState = Start | Dialog | Waiting | End

  datatype DialogOption = DialogOption(text: string, node: string, used: bool)

  datatype DialogEvent =
    | Dialog(speaker: string, text: string, tags: seq<PC.Tag>)
    | Options(speaker: string, options: seq<DialogOption>)
    | Waiting
    | End

  datatype DialogRunnerError =
    | StartingNodeNotFound(nodeName: string)
    | UnknownNodeChosen(nodeName: string)
    | WrongState(current: DialogState, expected: DialogState)
}

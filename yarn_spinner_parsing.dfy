/**
 * Conversion of the pest parse tree into script nodes
 * (src/parsing/yarn_spinner_parsing.rs).
 *
 * Every `unreachable!()`, `unwrap()` and `expect()` of the source is a
 * precondition on the shape of the tree (the `...Shape` predicates). The
 * functions ending in `Of` say what each parse function computes; the
 * methods are the source's loops, proved to compute exactly that.
 */
module YarnSpinnerParsing {
  import opened Wrappers
  import opened ParseTree
  import PC = ParsingComponents

  // ---------------------------------------------------------------------------
  // Shapes the source relies on

  /** Children of a set line: variable names and booleans that `parse::<bool>` accepts. */
  predicate SetLineShape(p: Pair)
  {
    forall c <- p.inner ::
      c.rule == VariableName || (c.rule == BooleanValue && (c.text == "true" || c.text == "false"))
  }

  predicate CommandLineShape(p: Pair)
  {
    forall c <- p.inner ::
      c.rule == FunctionName || (c.rule == Args && forall a <- c.inner :: a.rule == Arg)
  }

  predicate TagShape(p: Pair)
  {
    forall c <- p.inner :: c.rule == TagName || c.rule == TagValue
  }

  predicate DialogLineShape(p: Pair)
  {
    forall c <- p.inner :: c.rule == Speaker || c.rule == Dialog || (c.rule == Tags && TagShape(c))
  }

  predicate IfStatementShape(p: Pair)
  {
    forall c <- p.inner :: c.rule == VariableName || c.rule == Condition || c.rule == BooleanValue
  }

  predicate OptionDialogLineShape(p: Pair)
  {
    forall c <- p.inner ::
      c.rule == Speaker || c.rule == Dialog || (c.rule == IfStatement && IfStatementShape(c))
  }

  /** One `option_line`: its dialog part and its jump part (which holds titles only). */
  predicate OptionLineShape(p: Pair)
  {
    forall c <- p.inner ::
      || (c.rule == OptionDialogLine && OptionDialogLineShape(c))
      || (c.rule == JumpLine && forall t <- c.inner :: t.rule == Title)
  }

  predicate OptionLinesShape(p: Pair)
  {
    forall c <- p.inner :: c.rule == OptionLine && OptionLineShape(c)
  }

  /** `parse_jump_line` expects a title among the children. */
  predicate JumpLineShape(p: Pair)
  {
    exists c <- p.inner :: c.rule == Title
  }

  /** A line `parse_content` accepts: one of its five rules, with that rule's shape. */
  predicate ContentShape(p: Pair)
  {
    match p.rule
    case SetLine => SetLineShape(p)
    case CommandLine => CommandLineShape(p)
    case DialogLine => DialogLineShape(p)
    case OptionLines => OptionLinesShape(p)
    case JumpLine => JumpLineShape(p)
    case _ => false
  }

  /** Only a `section` is looked into; its children are titles and section contents. */
  predicate SectionShape(p: Pair)
  {
    p.rule == Section ==>
      forall c <- p.inner ::
        c.rule == Title || (c.rule == SectionContent && forall d <- c.inner :: ContentShape(d))
  }

  // ---------------------------------------------------------------------------
  // What each parse function computes

  function SetLineOf(p: Pair): PC.LineType
  {
    PC.SetLine(Field(p.inner, VariableName), Field(p.inner, BooleanValue) == "true")
  }

  function CommandLineOf(p: Pair): PC.LineType
  {
    PC.CommandLine(Field(p.inner, FunctionName), Texts(Flatten(Select(p.inner, Args))))
  }

  function TagOf(p: Pair): PC.Tag
  {
    PC.Tag(Field(p.inner, TagName), Field(p.inner, TagValue))
  }

  /** One tag per pair, in order. */
  function TagsOf(s: seq<Pair>): seq<PC.Tag>
  {
    if s == [] then [] else TagsOf(s[..|s| - 1]) + [TagOf(s[|s| - 1])]
  }

  lemma TagsSnoc(s: seq<Pair>, x: Pair)
    ensures TagsOf(s + [x]) == TagsOf(s) + [TagOf(x)]
  {
    assert (s + [x])[..|s|] == s;
  }

  function DialogLineOf(p: Pair): PC.LineType
  {
    PC.DialogLine(Field(p.inner, Speaker), Field(p.inner, Dialog), TagsOf(Select(p.inner, Tags)))
  }

  function ConditionOf(p: Pair): PC.Condition
  {
    PC.Condition(Field(p.inner, VariableName), Field(p.inner, Condition), Field(p.inner, BooleanValue))
  }

  function ConditionFrom(ifStatement: Option<Pair>): Option<PC.Condition>
  {
    match ifStatement
    case Some(p) => Some(ConditionOf(p))
    case None => None
  }

  /** The fields of all `option_dialog_line` children of an option line, in order. */
  function DialogFields(s: seq<Pair>): seq<Pair>
  {
    Flatten(Select(s, OptionDialogLine))
  }

  /** The fields of all `jump_line` children of an option line, in order. */
  function JumpFields(s: seq<Pair>): seq<Pair>
  {
    Flatten(Select(s, JumpLine))
  }

  /** One option of an `option_lines` block. */
  function PossibilityOf(p: Pair): PC.OptionPossibility
  {
    var dialogFields := DialogFields(p.inner);
    PC.OptionPossibility(
      Field(dialogFields, Dialog),
      Field(JumpFields(p.inner), Title),
      ConditionFrom(Last(dialogFields, IfStatement)),
      false)
  }

  /** One possibility per `option_line`, in order. */
  function PossibilitiesOf(s: seq<Pair>): seq<PC.OptionPossibility>
  {
    if s == [] then [] else PossibilitiesOf(s[..|s| - 1]) + [PossibilityOf(s[|s| - 1])]
  }

  /** Reading one more `option_line` of `s` appends its possibility. */
  lemma PossibilitiesStep(s: seq<Pair>, i: nat)
    requires i < |s|
    ensures PossibilitiesOf(s[..i + 1]) == PossibilitiesOf(s[..i]) + [PossibilityOf(s[i])]
  {
    assert s[..i + 1][..i] == s[..i];
  }

  /** The speaker of an option block is always empty; per-option speakers are dropped. */
  function OptionLinesOf(p: Pair): PC.LineType
  {
    PC.OptionLine("", PossibilitiesOf(p.inner))
  }

  /**
   * `parse_jump_line`: the jump names the FIRST title among the children
   * (other children are ignored).
   */
  function ParseJumpLine(content: Pair): (line: PC.LineType)
    requires JumpLineShape(content)
    ensures line.JumpLine?
    ensures exists i :: 0 <= i < |content.inner| && content.inner[i].rule == Title &&
                        content.inner[i].text == line.nodeTitle &&
                        forall j :: 0 <= j < i ==> content.inner[j].rule != Title
  {
    PC.JumpLine(First(content.inner, Title).value.text)
  }

  /** `parse_content`: a dispatch on the rule of the line. */
  function ParseContent(content: Pair): (line: PC.LineType)
    requires ContentShape(content)
    ensures content.rule == SetLine <==> line.SetLine?
    ensures content.rule == CommandLine <==> line.CommandLine?
    ensures content.rule == DialogLine <==> line.DialogLine?
    ensures content.rule == OptionLines <==> line.OptionLine?
    ensures content.rule == JumpLine <==> line.JumpLine?
  {
    match content.rule
    case SetLine => SetLineOf(content)
    case CommandLine => CommandLineOf(content)
    case DialogLine => DialogLineOf(content)
    case OptionLines => OptionLinesOf(content)
    case JumpLine => ParseJumpLine(content)
  }

  /** One line per content pair, in order. */
  function ContentsOf(s: seq<Pair>): seq<PC.LineType>
    requires forall d <- s :: ContentShape(d)
  {
    if s == [] then []
    else
      ContentsOf(s[..|s| - 1]) + [ParseContent(s[|s| - 1])]
  }

  /** The contents of every `section_content` child of `p`, in document order. */
  function SectionLines(p: Pair): seq<Pair>
  {
    Flatten(Select(p.inner, SectionContent))
  }

  lemma SectionLinesShaped(p: Pair)
    requires p.rule == Section && SectionShape(p)
    ensures forall d <- SectionLines(p) :: ContentShape(d)
  {
    SelectMembers(p.inner, SectionContent);
    FlattenMembers(Select(p.inner, SectionContent));
    forall d <- SectionLines(p) ensures ContentShape(d) {
      var c :| c in Select(p.inner, SectionContent) && d in c.inner;
      assert c in p.inner;
    }
  }

  function SectionOf(p: Pair): PC.YarnSpinnerNode
    requires SectionShape(p)
  {
    if p.rule == Section then
      SectionLinesShaped(p);
      PC.YarnSpinnerNode(Field(p.inner, Title), ContentsOf(SectionLines(p)))
    else
      PC.YarnSpinnerNode("", [])
  }

  /**
   * `load_from_file` after a successful parse: one node per top-level pair, in
   * order; a pair that is not a section gives a node with no title and no lines.
   */
  function LoadFromFile(pairs: seq<Pair>): (nodes: seq<PC.YarnSpinnerNode>)
    requires forall p <- pairs :: SectionShape(p)
    ensures |nodes| == |pairs|
    ensures forall i :: 0 <= i < |pairs| && pairs[i].rule == Section ==>
      nodes[i].title == Field(pairs[i].inner, Title) &&
      (SectionLinesShaped(pairs[i]); nodes[i].lines == ContentsOf(SectionLines(pairs[i])))
    ensures forall i :: 0 <= i < |pairs| && pairs[i].rule != Section ==>
      nodes[i] == PC.YarnSpinnerNode("", [])
  {
    seq(|pairs|, i requires 0 <= i < |pairs| => SectionOf(pairs[i]))
  }

  // ---------------------------------------------------------------------------
  // The parse functions, as the loops the source runs

  method ParseSection(section: Pair) returns (node: PC.YarnSpinnerNode)
    requires SectionShape(section)
    ensures node == SectionOf(section)
  {
    node := PC.YarnSpinnerNode("", []);
    if section.rule == Section {
      SectionLinesShaped(section);
      for i := 0 to |section.inner|
        invariant forall d <- Flatten(Select(section.inner[..i], SectionContent)) :: ContentShape(d)
        invariant node.title == Field(section.inner[..i], Title)
        invariant node.lines == ContentsOf(Flatten(Select(section.inner[..i], SectionContent)))
      {
        node := ParseSectionField(section, i, node);
      }
      assert section.inner[..|section.inner|] == section.inner;
    }
  }

  /** One iteration of the loop of `parse_section`: a title, or a `section_content` whose lines are pushed. */
  method ParseSectionField(section: Pair, i: nat, node0: PC.YarnSpinnerNode) returns (node: PC.YarnSpinnerNode)
    requires section.rule == Section && SectionShape(section) && i < |section.inner|
    requires forall d <- Flatten(Select(section.inner[..i], SectionContent)) :: ContentShape(d)
    requires node0.title == Field(section.inner[..i], Title)
    requires node0.lines == ContentsOf(Flatten(Select(section.inner[..i], SectionContent)))
    ensures forall d <- Flatten(Select(section.inner[..i + 1], SectionContent)) :: ContentShape(d)
    ensures node.title == Field(section.inner[..i + 1], Title)
    ensures node.lines == ContentsOf(Flatten(Select(section.inner[..i + 1], SectionContent)))
  {
    var field := section.inner[i];
    assert field in section.inner;
    LastStep(section.inner, i, Title);
    SelectStep(section.inner, i, SectionContent);
    ghost var done := Flatten(Select(section.inner[..i], SectionContent));
    match field.rule {
      case Title =>
        node := node0.(title := field.text);
      case SectionContent =>
        FlattenSnoc(Select(section.inner[..i], SectionContent), field);
        node := ParseSectionContent(field, done, node0);
      case _ =>
        assert false;
    }
  }

  /** The source's inner loop over one `section_content`: one line per child, appended. */
  method ParseSectionContent(field: Pair, ghost done: seq<Pair>, node0: PC.YarnSpinnerNode)
    returns (node: PC.YarnSpinnerNode)
    requires forall d <- done :: ContentShape(d)
    requires forall d <- field.inner :: ContentShape(d)
    requires node0.lines == ContentsOf(done)
    ensures forall d <- done + field.inner :: ContentShape(d)
    ensures node.title == node0.title
    ensures node.lines == ContentsOf(done + field.inner)
  {
    node := node0;
    PrefixEnds(done, field.inner);
    for j := 0 to |field.inner|
      invariant forall d <- done + field.inner[..j] :: ContentShape(d)
      invariant node.title == node0.title
      invariant node.lines == ContentsOf(done + field.inner[..j])
    {
      var content := field.inner[j];
      assert content in field.inner;
      ContentsStep(done, field.inner, j);
      var line := ParseContentLine(content);
      node := node.(lines := node.lines + [line]);
    }
  }

  /** `parse_content`: the dispatch on the rule, running the loop of that kind of line. */
  method ParseContentLine(content: Pair) returns (line: PC.LineType)
    requires ContentShape(content)
    ensures line == ParseContent(content)
  {
    match content.rule {
      case SetLine =>
        line := ParseSetLine(content);
      case CommandLine =>
        line := ParseCommandLine(content);
      case DialogLine =>
        line := ParseDialogLine(content);
      case OptionLines =>
        line := ParseOptionLines(content);
      case JumpLine =>
        line := ParseJumpLine(content);
      case _ =>
        assert false;
    }
  }

  /** Parsing one more content pair of `done + s` appends its line. */
  lemma ContentsStep(done: seq<Pair>, s: seq<Pair>, j: nat)
    requires j < |s|
    requires forall d <- done + s[..j] :: ContentShape(d)
    requires ContentShape(s[j])
    ensures forall d <- done + s[..j + 1] :: ContentShape(d)
    ensures ContentsOf(done + s[..j + 1]) == ContentsOf(done + s[..j]) + [ParseContent(s[j])]
  {
    assert done + s[..j + 1] == (done + s[..j]) + [s[j]];
    assert (done + s[..j + 1])[..|done| + j] == done + s[..j];
  }

  method ParseSetLine(content: Pair) returns (line: PC.LineType)
    requires SetLineShape(content)
    ensures line == SetLineOf(content)
  {
    var variableName := "";
    var value := false;
    for i := 0 to |content.inner|
      invariant variableName == Field(content.inner[..i], VariableName)
      invariant value == (Field(content.inner[..i], BooleanValue) == "true")
    {
      var field := content.inner[i];
      assert field in content.inner;
      LastStep(content.inner, i, VariableName);
      LastStep(content.inner, i, BooleanValue);
      match field.rule {
        case VariableName => variableName := field.text;
        case BooleanValue => value := field.text == "true";
        case _ => assert false;
      }
    }
    assert content.inner[..|content.inner|] == content.inner;
    line := PC.SetLine(variableName, value);
  }

  method ParseCommandLine(content: Pair) returns (line: PC.LineType)
    requires CommandLineShape(content)
    ensures line == CommandLineOf(content)
  {
    var funcName := "";
    var args: seq<string> := [];
    for i := 0 to |content.inner|
      invariant funcName == Field(content.inner[..i], FunctionName)
      invariant args == Texts(Flatten(Select(content.inner[..i], Args)))
    {
      var field := content.inner[i];
      assert field in content.inner;
      LastStep(content.inner, i, FunctionName);
      SelectStep(content.inner, i, Args);
      match field.rule {
        case FunctionName =>
          funcName := field.text;
        case Args =>
          FlattenSnoc(Select(content.inner[..i], Args), field);
          args := ParseArgs(field, Flatten(Select(content.inner[..i], Args)), args);
        case _ =>
          assert false;
      }
    }
    assert content.inner[..|content.inner|] == content.inner;
    line := PC.CommandLine(funcName, args);
  }

  /** The source's inner loop over the `args` of a command: each `arg` text is pushed. */
  method ParseArgs(field: Pair, ghost done: seq<Pair>, args0: seq<string>) returns (args: seq<string>)
    requires forall a <- field.inner :: a.rule == Arg
    requires args0 == Texts(done)
    ensures args == Texts(done + field.inner)
  {
    args := args0;
    PrefixEnds(done, field.inner);
    for j := 0 to |field.inner|
      invariant args == Texts(done + field.inner[..j])
    {
      var arg := field.inner[j];
      assert arg in field.inner;
      TextsStep(done, field.inner, j);
      match arg.rule {
        case Arg => args := args + [arg.text];
        case _ => assert false;
      }
    }
  }

  method ParseDialogLine(content: Pair) returns (line: PC.LineType)
    requires DialogLineShape(content)
    ensures line == DialogLineOf(content)
  {
    var speaker := "";
    var text := "";
    var tags: seq<PC.Tag> := [];
    for i := 0 to |content.inner|
      invariant speaker == Field(content.inner[..i], Speaker)
      invariant text == Field(content.inner[..i], Dialog)
      invariant tags == TagsOf(Select(content.inner[..i], Tags))
    {
      var field := content.inner[i];
      assert field in content.inner;
      LastStep(content.inner, i, Speaker);
      LastStep(content.inner, i, Dialog);
      SelectStep(content.inner, i, Tags);
      match field.rule {
        case Speaker => speaker := field.text;
        case Dialog => text := field.text;
        case Tags =>
          var tag := ParseTag(field);
          TagsSnoc(Select(content.inner[..i], Tags), field);
          tags := tags + [tag];
        case _ => assert false;
      }
    }
    assert content.inner[..|content.inner|] == content.inner;
    line := PC.DialogLine(speaker, text, tags);
  }

  method ParseTag(content: Pair) returns (tag: PC.Tag)
    requires TagShape(content)
    ensures tag == TagOf(content)
  {
    var name := "";
    var value := "";
    for i := 0 to |content.inner|
      invariant name == Field(content.inner[..i], TagName)
      invariant value == Field(content.inner[..i], TagValue)
    {
      var field := content.inner[i];
      assert field in content.inner;
      LastStep(content.inner, i, TagName);
      LastStep(content.inner, i, TagValue);
      match field.rule {
        case TagName => name := field.text;
        case TagValue => value := field.text;
        case _ => assert false;
      }
    }
    assert content.inner[..|content.inner|] == content.inner;
    tag := PC.Tag(name, value);
  }

  method ParseOptionLines(content: Pair) returns (line: PC.LineType)
    requires OptionLinesShape(content)
    ensures line == OptionLinesOf(content)
  {
    var possibilities: seq<PC.OptionPossibility> := [];
    var speaker := "";
    for i := 0 to |content.inner|
      invariant possibilities == PossibilitiesOf(content.inner[..i])
    {
      var optionLine := content.inner[i];
      assert optionLine in content.inner;
      PossibilitiesStep(content.inner, i);
      match optionLine.rule {
        case OptionLine =>
          var possibility := ParseOptionLine(optionLine);
          possibilities := possibilities + [possibility];
        case _ =>
          assert false;
      }
    }
    assert content.inner[..|content.inner|] == content.inner;
    line := PC.OptionLine(speaker, possibilities);
  }

  /** The body of the source's loop over the `option_line` children of a block. */
  method ParseOptionLine(optionLine: Pair) returns (possibility: PC.OptionPossibility)
    requires OptionLineShape(optionLine)
    ensures possibility == PossibilityOf(optionLine)
  {
    var text := "";
    var nodeTitle := "";
    var condition: Option<PC.Condition> := None;
    for k := 0 to |optionLine.inner|
      invariant text == Field(DialogFields(optionLine.inner[..k]), Dialog)
      invariant condition == ConditionFrom(Last(DialogFields(optionLine.inner[..k]), IfStatement))
      invariant nodeTitle == Field(JumpFields(optionLine.inner[..k]), Title)
    {
      var field := optionLine.inner[k];
      assert field in optionLine.inner;
      SelectStep(optionLine.inner, k, OptionDialogLine);
      SelectStep(optionLine.inner, k, JumpLine);
      match field.rule {
        case OptionDialogLine =>
          FlattenSnoc(Select(optionLine.inner[..k], OptionDialogLine), field);
          text, condition := ReadOptionDialogLine(field, DialogFields(optionLine.inner[..k]), text, condition);
        case JumpLine =>
          FlattenSnoc(Select(optionLine.inner[..k], JumpLine), field);
          nodeTitle := ReadOptionJumpLine(field, JumpFields(optionLine.inner[..k]), nodeTitle);
        case _ =>
          assert false;
      }
    }
    assert optionLine.inner[..|optionLine.inner|] == optionLine.inner;
    possibility := PC.OptionPossibility(text, nodeTitle, condition, false);
  }

  /**
   * The source's inner loop over an `option_dialog_line`: the text and the
   * condition read so far (from the fields `before`) are overwritten by this
   * part's dialog and `if_statement`; its speaker is dropped.
   */
  method ReadOptionDialogLine(field: Pair, ghost before: seq<Pair>, text0: string, condition0: Option<PC.Condition>)
    returns (text: string, condition: Option<PC.Condition>)
    requires OptionDialogLineShape(field)
    requires text0 == Field(before, Dialog)
    requires condition0 == ConditionFrom(Last(before, IfStatement))
    ensures text == Field(before + field.inner, Dialog)
    ensures condition == ConditionFrom(Last(before + field.inner, IfStatement))
  {
    text, condition := text0, condition0;
    PrefixEnds(before, field.inner);
    for j := 0 to |field.inner|
      invariant text == Field(before + field.inner[..j], Dialog)
      invariant condition == ConditionFrom(Last(before + field.inner[..j], IfStatement))
    {
      var dialogLineField := field.inner[j];
      assert dialogLineField in field.inner;
      LastStepAfter(before, field.inner, j, Dialog);
      LastStepAfter(before, field.inner, j, IfStatement);
      match dialogLineField.rule {
        case Speaker =>
        case Dialog => text := dialogLineField.text;
        case IfStatement =>
          var parsed := ParseIfStatement(dialogLineField);
          condition := Some(parsed);
        case _ => assert false;
      }
    }
  }

  /** The source's inner loop over the `jump_line` of an option: the last title wins. */
  method ReadOptionJumpLine(field: Pair, ghost before: seq<Pair>, nodeTitle0: string)
    returns (nodeTitle: string)
    requires forall t <- field.inner :: t.rule == Title
    requires nodeTitle0 == Field(before, Title)
    ensures nodeTitle == Field(before + field.inner, Title)
  {
    nodeTitle := nodeTitle0;
    PrefixEnds(before, field.inner);
    for j := 0 to |field.inner|
      invariant nodeTitle == Field(before + field.inner[..j], Title)
    {
      var jumpLineField := field.inner[j];
      assert jumpLineField in field.inner;
      LastStepAfter(before, field.inner, j, Title);
      match jumpLineField.rule {
        case Title => nodeTitle := jumpLineField.text;
        case _ => assert false;
      }
    }
  }

  method ParseIfStatement(dialogLineField: Pair) returns (condition: PC.Condition)
    requires IfStatementShape(dialogLineField)
    ensures condition == ConditionOf(dialogLineField)
  {
    var variableName := "";
    var conditionSign := "";
    var value := "";
    for i := 0 to |dialogLineField.inner|
      invariant variableName == Field(dialogLineField.inner[..i], VariableName)
      invariant conditionSign == Field(dialogLineField.inner[..i], Condition)
      invariant value == Field(dialogLineField.inner[..i], BooleanValue)
    {
      var field := dialogLineField.inner[i];
      assert field in dialogLineField.inner;
      LastStep(dialogLineField.inner, i, VariableName);
      LastStep(dialogLineField.inner, i, Condition);
      LastStep(dialogLineField.inner, i, BooleanValue);
      match field.rule {
        case VariableName => variableName := field.text;
        case Condition => conditionSign := field.text;
        case BooleanValue => value := field.text;
        case _ => assert false;
      }
    }
    assert dialogLineField.inner[..|dialogLineField.inner|] == dialogLineField.inner;
    condition := PC.Condition(variableName, conditionSign, value);
  }
}

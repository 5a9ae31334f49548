/**
 * What the parse functions of src/parsing/yarn_spinner_parsing.rs promise,
 * stated over the parse tree: a field is the text of the last child with its
 * rule (or empty when there is none), lists come out one item per child and
 * in document order, and the defaults the loops start from stay when a field
 * is absent.
 */
module ParsingProperties {
  import opened ParseTree
  import opened YarnSpinnerParsing
  import PC = ParsingComponents

  /** A field is "" when no child has its rule, and otherwise the text of the last child that has it. */
  lemma FieldIsLast(s: seq<Pair>, rule: Rule)
    ensures (forall p <- s :: p.rule != rule) ==> Field(s, rule) == ""
    ensures (exists p <- s :: p.rule == rule) ==>
      exists i :: 0 <= i < |s| && s[i].rule == rule && Field(s, rule) == s[i].text &&
                  forall j :: i < j < |s| ==> s[j].rule != rule
  {
    LastNone(s, rule);
    if Last(s, rule).Some? {
      LastOccurrence(s, rule);
    }
  }

  /** One line per content pair. */
  lemma {:induction false} ContentsLength(s: seq<Pair>)
    requires forall d <- s :: ContentShape(d)
    ensures |ContentsOf(s)| == |s|
  {
    if s != [] {
      ContentsLength(s[..|s| - 1]);
    }
  }

  /** The line at index `i` is the parse of the content pair at index `i`. */
  lemma {:induction false} ContentAt(s: seq<Pair>, i: nat)
    requires forall d <- s :: ContentShape(d)
    requires i < |s|
    ensures |ContentsOf(s)| == |s| && ContentsOf(s)[i] == ParseContent(s[i])
  {
    var init, last := s[..|s| - 1], s[|s| - 1];
    assert s == init + [last];
    assert ContentsOf(s) == ContentsOf(init) + [ParseContent(last)];
    ContentsLength(init);
    if i < |init| {
      ContentAt(init, i);
      assert s[i] == init[i];
    }
  }

  /** One line per content pair, in order. */
  lemma ContentsInOrder(s: seq<Pair>)
    requires forall d <- s :: ContentShape(d)
    ensures |ContentsOf(s)| == |s|
    ensures forall i :: 0 <= i < |s| ==> ContentsOf(s)[i] == ParseContent(s[i])
  {
    ContentsLength(s);
    forall i | 0 <= i < |s| ensures ContentsOf(s)[i] == ParseContent(s[i]) {
      ContentAt(s, i);
    }
  }

  /** One tag per `tags` pair, in order. */
  lemma {:induction false} TagsInOrder(s: seq<Pair>)
    ensures |TagsOf(s)| == |s|
    ensures forall i :: 0 <= i < |s| ==> TagsOf(s)[i] == TagOf(s[i])
  {
    if s != [] {
      TagsInOrder(s[..|s| - 1]);
    }
  }

  /** One possibility per `option_line` pair. */
  lemma {:induction false} PossibilitiesLength(s: seq<Pair>)
    ensures |PossibilitiesOf(s)| == |s|
  {
    if s != [] {
      PossibilitiesLength(s[..|s| - 1]);
    }
  }

  /** The possibility at index `i` is the one the `option_line` at index `i` gives. */
  lemma {:induction false} PossibilityAt(s: seq<Pair>, i: nat)
    requires i < |s|
    ensures |PossibilitiesOf(s)| == |s| && PossibilitiesOf(s)[i] == PossibilityOf(s[i])
  {
    var init := s[..|s| - 1];
    PossibilitiesLength(s);
    PossibilitiesLength(init);
    if i < |init| {
      PossibilityAt(init, i);
      assert s[i] == init[i];
    }
  }

  /** One possibility per `option_line` pair, in order. */
  lemma PossibilitiesInOrder(s: seq<Pair>)
    ensures |PossibilitiesOf(s)| == |s|
    ensures forall i :: 0 <= i < |s| ==> PossibilitiesOf(s)[i] == PossibilityOf(s[i])
  {
    PossibilitiesLength(s);
    forall i | 0 <= i < |s| ensures PossibilitiesOf(s)[i] == PossibilityOf(s[i]) {
      PossibilityAt(s, i);
    }
  }

  /**
   * `parse_section`: the title is the last `title` child's text, and the lines
   * are the parsed contents of the `section_content` children, one per content
   * and in document order. Any other pair gives an untitled node with no lines.
   */
  lemma SectionParsed(p: Pair)
    requires SectionShape(p)
    ensures p.rule != Section ==> SectionOf(p) == PC.YarnSpinnerNode("", [])
    ensures p.rule == Section ==>
      && SectionOf(p).title == Field(p.inner, Title)
      && |SectionOf(p).lines| == |SectionLines(p)|
      && (SectionLinesShaped(p);
          forall i :: 0 <= i < |SectionLines(p)| ==> SectionOf(p).lines[i] == ParseContent(SectionLines(p)[i]))
  {
    if p.rule == Section {
      SectionLinesShaped(p);
      ContentsInOrder(SectionLines(p));
    }
  }

  /**
   * `parse_set_line`: the value is false unless the last `boolean_value` child
   * reads "true"; with no such child it stays false and with no
   * `variable_name` child the name stays empty.
   */
  lemma SetLineParsed(p: Pair)
    requires SetLineShape(p)
    ensures SetLineOf(p).SetLine?
    ensures (forall c <- p.inner :: c.rule != BooleanValue) ==> !SetLineOf(p).value
    ensures (forall c <- p.inner :: c.rule != VariableName) ==> SetLineOf(p).variableName == ""
    ensures SetLineOf(p).value <==>
      exists i :: 0 <= i < |p.inner| && p.inner[i].rule == BooleanValue && p.inner[i].text == "true" &&
                  forall j :: i < j < |p.inner| ==> p.inner[j].rule != BooleanValue
  {
    FieldIsLast(p.inner, BooleanValue);
    FieldIsLast(p.inner, VariableName);
    if SetLineOf(p).value {
      assert exists c <- p.inner :: c.rule == BooleanValue;
    }
  }

  /** `parse_command_line`: the arguments are the texts of the `arg` pairs of the `args` children, in order. */
  lemma CommandLineParsed(p: Pair)
    requires CommandLineShape(p)
    ensures
      var args := Flatten(Select(p.inner, Args));
      && CommandLineOf(p).CommandLine?
      && CommandLineOf(p).funcName == Field(p.inner, FunctionName)
      && |CommandLineOf(p).args| == |args|
      && (forall i :: 0 <= i < |args| ==> CommandLineOf(p).args[i] == args[i].text && args[i].rule == Arg)
  {
    var args := Flatten(Select(p.inner, Args));
    TextsAt(args);
    SelectMembers(p.inner, Args);
    FlattenMembers(Select(p.inner, Args));
    forall i | 0 <= i < |args| ensures args[i].rule == Arg {
      assert args[i] in args;
      var c :| c in Select(p.inner, Args) && args[i] in c.inner;
      assert c in p.inner;
    }
  }

  /** `parse_dialog_line`: the speaker is "" when absent, and there is one tag per `tags` child, in order. */
  lemma DialogLineParsed(p: Pair)
    requires DialogLineShape(p)
    ensures (forall c <- p.inner :: c.rule != Speaker) ==> DialogLineOf(p).speaker == ""
    ensures (forall c <- p.inner :: c.rule != Dialog) ==> DialogLineOf(p).text == ""
    ensures
      var tags := Select(p.inner, Tags);
      && |DialogLineOf(p).tags| == |tags|
      && forall i :: 0 <= i < |tags| ==> DialogLineOf(p).tags[i] == PC.Tag(Field(tags[i].inner, TagName), Field(tags[i].inner, TagValue))
  {
    FieldIsLast(p.inner, Speaker);
    FieldIsLast(p.inner, Dialog);
    TagsInOrder(Select(p.inner, Tags));
  }

  /**
   * `parse_option_lines`: one possibility per `option_line`, in order, none of
   * them used yet, and a block speaker that is always empty.
   */
  lemma OptionLinesParsed(p: Pair)
    requires OptionLinesShape(p)
    ensures OptionLinesOf(p).OptionLine? && OptionLinesOf(p).speaker == ""
    ensures |OptionLinesOf(p).possibilities| == |p.inner|
    ensures forall i :: 0 <= i < |p.inner| ==>
      OptionLinesOf(p).possibilities[i] == PossibilityOf(p.inner[i]) && !OptionLinesOf(p).possibilities[i].used
  {
    PossibilitiesInOrder(p.inner);
  }

  /**
   * An option has a condition exactly when one of its dialog parts holds an
   * `if_statement`, and then it is the last one, with its three texts copied
   * as they are.
   */
  lemma PossibilityCondition(p: Pair)
    ensures PossibilityOf(p).condition.Some? <==> exists d <- DialogFields(p.inner) :: d.rule == IfStatement
    ensures PossibilityOf(p).condition.Some? ==>
      var c := Last(DialogFields(p.inner), IfStatement).value;
      PossibilityOf(p).condition.value ==
        PC.Condition(Field(c.inner, VariableName), Field(c.inner, Condition), Field(c.inner, BooleanValue))
  {
    LastNone(DialogFields(p.inner), IfStatement);
  }
}

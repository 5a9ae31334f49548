/**
 * The parse tree the pest grammar hands to src/parsing/yarn_spinner_parsing.rs.
 * The grammar itself is not part of this model: a `Pair` is its rule, the text
 * it matched (`as_str`) and its children (`into_inner`), and the functions below
 * are the folds the parser's loops compute over a list of children.
 */
module ParseTree {
  import opened Wrappers

  /** The grammar rules the parser matches on, plus pest's end-of-input marker. */
  datatype Rule =
    | Yarnspinner | Section | Title | SectionContent
    | SetLine | CommandLine | DialogLine | OptionLines | JumpLine
    | VariableName | BooleanValue | FunctionName | Args | Arg
    | Speaker | Dialog | Tags | TagName | TagValue
    | OptionLine | OptionDialogLine | IfStatement | Condition
    | EOI

  datatype Pair = Pair(rule: Rule, text: string, inner: seq<Pair>)

  /** The pairs of `s` that have rule `rule`, in document order. */
  function Select(s: seq<Pair>, rule: Rule): (r: seq<Pair>)
    ensures |r| <= |s|
  {
    if s == [] then []
    else Select(s[..|s| - 1], rule) + (if s[|s| - 1].rule == rule then [s[|s| - 1]] else [])
  }

  /** The children of the pairs of `s`, concatenated in document order. */
  function Flatten(s: seq<Pair>): seq<Pair>
  {
    if s == [] then [] else Flatten(s[..|s| - 1]) + s[|s| - 1].inner
  }

  /**
   * The last pair of `s` with rule `rule`. The parser's loops assign a field
   * each time they meet its rule, so the last occurrence is the one that stays.
   */
  function Last(s: seq<Pair>, rule: Rule): Option<Pair>
  {
    if s == [] then None
    else if s[|s| - 1].rule == rule then Some(s[|s| - 1])
    else Last(s[..|s| - 1], rule)
  }

  /** The first pair of `s` with rule `rule`, as `find_map` finds it. */
  function First(s: seq<Pair>, rule: Rule): (r: Option<Pair>)
    ensures r.None? <==> forall p <- s :: p.rule != rule
    ensures r.Some? ==>
      exists i :: 0 <= i < |s| && s[i] == r.value && s[i].rule == rule &&
        forall j :: 0 <= j < i ==> s[j].rule != rule
  {
    if s == [] then None
    else if s[0].rule == rule then Some(s[0])
    else
      assert s == [s[0]] + s[1..];
      var r := First(s[1..], rule);
      assert r.Some? ==>
        exists i :: 1 <= i < |s| && s[i] == r.value && s[i].rule == rule &&
          forall j :: 1 <= j < i ==> s[j].rule != rule;
      r
  }

  /** The text of the last child with rule `rule`, or "" when there is none. */
  function Field(s: seq<Pair>, rule: Rule): string
  {
    match Last(s, rule)
    case Some(p) => p.text
    case None => ""
  }

  /** The texts of the pairs of `s`, in order. */
  function Texts(s: seq<Pair>): seq<string>
  {
    if s == [] then [] else Texts(s[..|s| - 1]) + [s[|s| - 1].text]
  }

  /** Selection keeps exactly the pairs of `s` that have the rule. */
  lemma {:induction false} SelectMembers(s: seq<Pair>, rule: Rule)
    ensures forall p <- Select(s, rule) :: p in s && p.rule == rule
    ensures forall p <- s :: p.rule == rule ==> p in Select(s, rule)
  {
    if s != [] {
      var init, last := s[..|s| - 1], s[|s| - 1];
      assert s == init + [last];
      SelectMembers(init, rule);
    }
  }

  /** The flattened list holds exactly the children of the pairs of `s`. */
  lemma {:induction false} FlattenMembers(s: seq<Pair>)
    ensures forall p <- s, c <- p.inner :: c in Flatten(s)
    ensures forall c <- Flatten(s) :: exists p <- s :: c in p.inner
  {
    if s != [] {
      var init, last := s[..|s| - 1], s[|s| - 1];
      assert s == init + [last];
      FlattenMembers(init);
    }
  }

  /** `Last` finds nothing exactly when no pair of `s` has the rule. */
  lemma {:induction false} LastNone(s: seq<Pair>, rule: Rule)
    ensures Last(s, rule).None? <==> forall p <- s :: p.rule != rule
  {
    if s != [] {
      var init, last := s[..|s| - 1], s[|s| - 1];
      assert s == init + [last];
      LastNone(init, rule);
    }
  }

  /** What `Last` finds is an occurrence of the rule with none after it. */
  lemma {:induction false} LastOccurrence(s: seq<Pair>, rule: Rule)
    requires Last(s, rule).Some?
    ensures exists i :: 0 <= i < |s| && s[i] == Last(s, rule).value && s[i].rule == rule &&
                        forall j :: i < j < |s| ==> s[j].rule != rule
  {
    var n := |s| - 1;
    if s[n].rule != rule {
      var init := s[..n];
      LastOccurrence(init, rule);
      var i :| 0 <= i < |init| && init[i] == Last(init, rule).value && init[i].rule == rule &&
               forall j :: i < j < |init| ==> init[j].rule != rule;
      assert s[i] == init[i];
      assert forall j :: i < j < |s| ==> s[j].rule != rule by {
        forall j | i < j < |s| ensures s[j].rule != rule {
          if j < n {
            assert s[j] == init[j];
          }
        }
      }
    }
  }

  /** A later occurrence in `b` overrides any occurrence in `a`. */
  lemma {:induction false} LastAppend(a: seq<Pair>, b: seq<Pair>, rule: Rule)
    ensures Last(a + b, rule) == if Last(b, rule).Some? then Last(b, rule) else Last(a, rule)
    decreases |b|
  {
    if b == [] {
      assert a + b == a;
    } else {
      var init := b[..|b| - 1];
      assert (a + b)[..|a + b| - 1] == a + init;
      LastAppend(a, init, rule);
    }
  }

  /** One text per pair, in order. */
  lemma {:induction false} TextsAt(s: seq<Pair>)
    ensures |Texts(s)| == |s|
    ensures forall i :: 0 <= i < |s| ==> Texts(s)[i] == s[i].text
  {
    if s != [] {
      TextsAt(s[..|s| - 1]);
    }
  }

  // What one more child at the end adds: one iteration of the parser's loops.

  lemma FlattenSnoc(s: seq<Pair>, x: Pair)
    ensures Flatten(s + [x]) == Flatten(s) + x.inner
  {
    assert (s + [x])[..|s|] == s;
  }

  /** Selecting from one more child of `s`, read through the prefix `s[..i]`. */
  lemma SelectStep(s: seq<Pair>, i: nat, rule: Rule)
    requires i < |s|
    ensures s[i].rule == rule ==> Select(s[..i + 1], rule) == Select(s[..i], rule) + [s[i]]
    ensures s[i].rule != rule ==> Select(s[..i + 1], rule) == Select(s[..i], rule)
  {
    assert s[..i + 1][..i] == s[..i];
  }

  /** The last occurrence of a rule among one more child of `s`, read through the prefix `s[..i]`. */
  lemma LastStep(s: seq<Pair>, i: nat, rule: Rule)
    requires i < |s|
    ensures s[i].rule == rule ==> Last(s[..i + 1], rule) == Some(s[i])
    ensures s[i].rule != rule ==> Last(s[..i + 1], rule) == Last(s[..i], rule)
  {
    assert s[..i + 1][..i] == s[..i];
  }

  /** The last occurrence of a rule among one more child of `done + s`. */
  lemma LastStepAfter(done: seq<Pair>, s: seq<Pair>, i: nat, rule: Rule)
    requires i < |s|
    ensures s[i].rule == rule ==> Last(done + s[..i + 1], rule) == Some(s[i])
    ensures s[i].rule != rule ==> Last(done + s[..i + 1], rule) == Last(done + s[..i], rule)
  {
    assert (done + s[..i + 1])[..|done| + i] == done + s[..i];
  }

  /** The texts of one more child of `done + s`. */
  lemma TextsStep(done: seq<Pair>, s: seq<Pair>, i: nat)
    requires i < |s|
    ensures Texts(done + s[..i + 1]) == Texts(done + s[..i]) + [s[i].text]
  {
    assert (done + s[..i + 1])[..|done| + i] == done + s[..i];
  }

  /** Taking all of `s` after `done` gives `done + s`; taking none gives `done`. */
  lemma PrefixEnds(done: seq<Pair>, s: seq<Pair>)
    ensures done + s[..0] == done
    ensures done + s[..|s|] == done + s
  {
    assert s[..0] == [];
    assert s[..|s|] == s;
  }
}

/**
 * Importing rules (importRulesFromFile and importRulesFromURL): the rules
 * extractRules finds in the imported text are merged into the store one by
 * one. The set of existing names is computed once, before the merge, the way
 * getAllRules lists them. A rule whose name is in that set is overwritten
 * with updateRule after a "y"; any other rule goes through createRule, which
 * looks at the store again and may ask its own question.
 *
 * Fetching the URL, opening the imported file and the messages are left to
 * the caller: the imported file is a `File`, the response body an
 * `Option<string>` that is None when the request fails or does not answer 200.
 */
module Import {
  import opened Wrappers
  import opened Text
  import opened Prompt
  import opened Lines
  import opened RuleStore
  import opened Extract
  import opened Export

  /**
   * The name and command of an extracted rule as the program splits it:
   * strings.Split on every " = ", accepted only when there are exactly two
   * parts.
   */
  function ParseImportedAsWritten(rule: string): (r: Option<(string, string)>)
    ensures r.Some? <==> |Split(rule, " = ")| == 2
  {
    var parts := Split(rule, " = ");
    if |parts| != 2 then None else Some((TrimSpace(parts[0]), TrimSpace(parts[1])))
  }

  /** The name and command of an extracted rule, split at its first " = " only. */
  function ParseImported(rule: string): (r: Option<(string, string)>)
    ensures r.None? <==> !Contains(rule, " = ")
  {
    match SplitFirst(rule, " = ")
    case None => None
    case Some((name, command)) =>
      assert OccursAt(rule, " = ", |name|) by {
        assert rule == name + " = " + command;
        assert rule[|name|..|name| + 3] == " = ";
      }
      Some((TrimSpace(name), TrimSpace(command)))
  }

  /** In a rule line whose name holds no '=', the first " = " is the one after the name. */
  lemma FirstSeparator(name: string, command: string)
    requires '=' !in name
    ensures SplitFirst(RuleLine(name, command), " = ") == Some((name, command))
  {
    var line := RuleLine(name, command);
    var n := |name|;
    assert line == name + " = " + command;
    assert OccursAt(line, " = ", n) by { assert line[n..n + 3] == " = "; }
    forall k: nat | k < n ensures !OccursAt(line, " = ", k) {
      if k + 1 < n {
        assert line[k + 1] == name[k + 1] != '=';
      } else {
        assert line[k + 1] == ' ';
      }
      assert line[k..k + 3][1] == line[k + 1];
    }
    assert IndexFrom(line, " = ", 0) == Some(n);
    assert line[..n] == name && line[n + 3..] == command;
  }

  /** The corrected split gives back the name and command of every rule line whose name holds no '='. */
  lemma ParseRuleLine(name: string, command: string)
    requires '=' !in name
    ensures ParseImported(RuleLine(name, command)) == Some((TrimSpace(name), TrimSpace(command)))
  {
    FirstSeparator(name, command);
  }

  /** Every rule extractRules returns is accepted by the corrected split. */
  lemma ExtractedRulesParse(text: string, unescape: string -> string, k: nat)
    requires k < |ExtractedRules(text, unescape)|
    ensures ParseImported(ExtractedRules(text, unescape)[k]).Some?
  {
    ExtractedWellFormed(text, unescape, k);
    var m := Matches(text)[k];
    ParseRuleLine(TrimSpace(m.name), unescape(TrimSpace(m.command)));
  }

  /** The program's split agrees with the corrected one when the command holds no " = ". */
  lemma AsWrittenAgrees(name: string, command: string)
    requires '=' !in name && !Contains(command, " = ")
    ensures ParseImportedAsWritten(RuleLine(name, command)) == ParseImported(RuleLine(name, command))
  {
    FirstSeparator(name, command);
    var line := RuleLine(name, command);
    assert IndexFrom(line, " = ", 0) == Some(|name|);
    assert line[|name| + 3..] == command;
    assert IndexFrom(command, " = ", 0).None?;
    assert Split(line, " = ") == [name] + Split(command, " = ");
    assert Split(command, " = ") == [command];
  }

  /**
   * A rule whose command holds " = " (as in "x = echo a = b") is split into
   * three or more parts and skipped by the program, while the corrected split
   * keeps the whole command.
   */
  lemma CommandWithEqualsSkipped(name: string, command: string)
    requires '=' !in name && Contains(command, " = ")
    ensures ParseImportedAsWritten(RuleLine(name, command)) == None
    ensures ParseImported(RuleLine(name, command)) == Some((TrimSpace(name), TrimSpace(command)))
  {
    var line := RuleLine(name, command);
    FirstSeparator(name, command);
    assert IndexFrom(line, " = ", 0) == Some(|name|);
    assert line[|name| + 3..] == command;
    assert Split(line, " = ") == [name] + Split(command, " = ");
    var k: nat :| k <= |command| && OccursAt(command, " = ", k);
    assert IndexFrom(command, " = ", 0).Some?;
  }

  /** The names getAllRules would list, as a set: what the merge treats as already present. */
  function ExistingNames(file: File): set<string> {
    set n | n in AllRuleNames(file)
  }

  /**
   * A split rule merged into the store: a name in the existing set is
   * overwritten with updateRule after a "y", any other name goes through
   * createRule. The new store and the answers left.
   */
  function MergeParsed(file: File, name: string, command: string, existing: set<string>, answers: seq<string>,
                       unquote: string -> Option<string>): (r: (File, seq<string>))
    ensures |r.1| <= |answers|
  {
    if name in existing then
      (if Answer(answers) == "y" then UpdateEffect(file, name, command, unquote).file else file, Remaining(answers))
    else
      var (e, rest) := CreateEffect(file, name, command, answers, unquote);
      (e.file, rest)
  }

  /** One rule merged as the program does it: a rule that does not split into exactly two parts is skipped. */
  function MergeStepAsWritten(file: File, rule: string, existing: set<string>, answers: seq<string>,
                              unquote: string -> Option<string>): (r: (File, seq<string>))
    ensures |Split(rule, " = ")| != 2 ==> r == (file, answers)
    ensures |r.1| <= |answers|
  {
    match ParseImportedAsWritten(rule)
    case None => (file, answers)
    case Some((name, command)) => MergeParsed(file, name, command, existing, answers, unquote)
  }

  /**
   * The program's merge: each rule in turn, against the store as the
   * previous rules left it; the existing set stays as it was computed before
   * the merge.
   */
  function MergeAsWritten(file: File, rules: seq<string>, existing: set<string>, answers: seq<string>,
                          unquote: string -> Option<string>): (r: (File, seq<string>))
    decreases |rules|
    ensures |r.1| <= |answers|
  {
    if rules == [] then (file, answers)
    else
      var (next, rest) := MergeStepAsWritten(file, rules[0], existing, answers, unquote);
      MergeAsWritten(next, rules[1..], existing, rest, unquote)
  }

  /** One rule merged with the corrected split: only a rule without any " = " is skipped. */
  function MergeStep(file: File, rule: string, existing: set<string>, answers: seq<string>,
                     unquote: string -> Option<string>): (r: (File, seq<string>))
    ensures !Contains(rule, " = ") ==> r == (file, answers)
    ensures Contains(rule, " = ") ==>
      r == MergeParsed(file, ParseImported(rule).value.0, ParseImported(rule).value.1, existing, answers, unquote)
    ensures |r.1| <= |answers|
  {
    match ParseImported(rule)
    case None => (file, answers)
    case Some((name, command)) => MergeParsed(file, name, command, existing, answers, unquote)
  }

  /** The merge with the corrected split. */
  function Merge(file: File, rules: seq<string>, existing: set<string>, answers: seq<string>,
                 unquote: string -> Option<string>): (r: (File, seq<string>))
    decreases |rules|
    ensures |r.1| <= |answers|
  {
    if rules == [] then (file, answers)
    else
      var (next, rest) := MergeStep(file, rules[0], existing, answers, unquote);
      Merge(next, rules[1..], existing, rest, unquote)
  }

  /** Both splits read every rule alike. */
  predicate SplitsAgree(rules: seq<string>) {
    forall k :: 0 <= k < |rules| ==> ParseImportedAsWritten(rules[k]) == ParseImported(rules[k])
  }

  /** Where both splits read every rule alike, the program's merge and the corrected one do the same. */
  lemma {:induction false} MergeAgrees(file: File, rules: seq<string>, existing: set<string>,
                                       answers: seq<string>, unquote: string -> Option<string>)
    requires SplitsAgree(rules)
    ensures MergeAsWritten(file, rules, existing, answers, unquote) == Merge(file, rules, existing, answers, unquote)
    decreases |rules|
  {
    if rules != [] {
      StepAgrees(file, rules[0], existing, answers, unquote);
      var (next, rest) := MergeStep(file, rules[0], existing, answers, unquote);
      AgreeTail(rules);
      MergeAgrees(next, rules[1..], existing, rest, unquote);
    }
  }

  /** Where both splits read a rule alike, both merge steps do the same. */
  lemma StepAgrees(file: File, rule: string, existing: set<string>, answers: seq<string>,
                   unquote: string -> Option<string>)
    requires ParseImportedAsWritten(rule) == ParseImported(rule)
    ensures MergeStepAsWritten(file, rule, existing, answers, unquote) == MergeStep(file, rule, existing, answers, unquote)
  {
  }

  /** Rules that both splits read alike still do so after the first. */
  lemma AgreeTail(rules: seq<string>)
    requires rules != [] && SplitsAgree(rules)
    ensures SplitsAgree(rules[1..])
  {
    forall k | 0 <= k < |rules[1..]| ensures ParseImportedAsWritten(rules[1..][k]) == ParseImported(rules[1..][k]) {
      assert rules[1..][k] == rules[k + 1];
    }
  }

  /**
   * A rule whose command holds " = " is skipped by the program's merge, which
   * reads no answer, while the corrected merge hands the whole command on.
   */
  lemma EqualsCommandMerged(file: File, name: string, command: string, existing: set<string>,
                            answers: seq<string>, unquote: string -> Option<string>)
    requires '=' !in name && Trimmed(name) && Trimmed(command) && Contains(command, " = ")
    ensures MergeStepAsWritten(file, RuleLine(name, command), existing, answers, unquote) == (file, answers)
    ensures MergeStep(file, RuleLine(name, command), existing, answers, unquote) ==
      MergeParsed(file, name, command, existing, answers, unquote)
  {
    CommandWithEqualsSkipped(name, command);
  }

  /** A rule line whose command holds no " = " is read alike by both splits, as its own name and command. */
  lemma RuleLineParsed(name: string, command: string)
    requires '=' !in name && Trimmed(name) && Trimmed(command) && !Contains(command, " = ")
    ensures ParseImportedAsWritten(RuleLine(name, command)) == Some((name, command))
    ensures ParseImported(RuleLine(name, command)) == Some((name, command))
  {
    AsWrittenAgrees(name, command);
    ParseRuleLine(name, command);
  }

  /** The set of the names in a sequence grows by one name per added name. */
  lemma SetOfSnoc(names: seq<string>, x: string)
    ensures (set n | n in names + [x]) == (set n | n in names) + {x}
  {
  }

  /** The set of existing names, built line by line. */
  method CollectExisting(file: File) returns (existing: set<string>)
    ensures existing == ExistingNames(file)
  {
    existing := {};
    if file.Missing? {
      return;
    }
    var lines := SplitLines(file.text);
    ghost var names: seq<string> := [];
    var todo := lines;
    while todo != []
      invariant names + Names(Entries(todo)) == Names(Entries(lines))
      invariant existing == set n | n in names
      decreases |todo|
    {
      ghost var before := names;
      var parts := SplitFirst(todo[0], "=");
      NameOfCut(todo[0]);
      NamesFront(todo);
      if parts.Some? {
        SetOfSnoc(names, TrimSpace(parts.value.0));
        names := names + [TrimSpace(parts.value.0)];
        existing := existing + {TrimSpace(parts.value.0)};
      }
      assert names == before + Names(EntryOf(todo[0]));
      ConcatAssoc(before, Names(EntryOf(todo[0])), Names(Entries(todo[1..])));
      todo := todo[1..];
    }
    assert names + [] == names;
  }

  /** Merges the rules extracted from `text` into the store (the part both import commands share). */
  method ImportText(file: File, text: string, answers: seq<string>,
                    unquote: string -> Option<string>, unescape: string -> string)
    returns (result: File, rest: seq<string>)
    ensures (result, rest) == MergeAsWritten(file, ExtractedRules(text, unescape), ExistingNames(file), answers, unquote)
  {
    var rules := ExtractRules(text, unescape);
    var existing := CollectExisting(file);
    result, rest := file, answers;
    var i := 0;
    while i < |rules|
      invariant 0 <= i <= |rules|
      invariant MergeAsWritten(result, rules[i..], existing, rest, unquote) ==
        MergeAsWritten(file, rules, existing, answers, unquote)
    {
      assert rules[i..][0] == rules[i] && rules[i..][1..] == rules[i + 1..];
      ghost var step := MergeStepAsWritten(result, rules[i], existing, rest, unquote);
      var parsed := ParseImportedAsWritten(rules[i]);
      if parsed.Some? {
        var (name, command) := parsed.value;
        if name in existing {
          var response := Answer(rest);
          rest := Remaining(rest);
          if response == "y" {
            var e := UpdateRule(result, name, command, unquote);
            result := e.file;
          }
        } else {
          var e;
          e, rest := CreateRule(result, name, command, rest, unquote);
          result := e.file;
        }
      }
      assert (result, rest) == step;
      i := i + 1;
    }
  }

  /** What importRulesFromFile does to the store: nothing when the imported file cannot be opened. */
  function ImportFileEffect(file: File, source: File, answers: seq<string>,
                            unquote: string -> Option<string>, unescape: string -> string): (File, seq<string>)
  {
    match source
    case Missing => (file, answers)
    case Present(text) =>
      MergeAsWritten(file, ExtractedRules(JoinLines(SplitLines(text)), unescape), ExistingNames(file), answers, unquote)
  }

  /** importRulesFromFile: the imported file's lines, each followed by a newline, become the text to extract from. */
  method ImportFromFile(file: File, source: File, answers: seq<string>,
                        unquote: string -> Option<string>, unescape: string -> string)
    returns (result: File, rest: seq<string>)
    ensures (result, rest) == ImportFileEffect(file, source, answers, unquote, unescape)
  {
    if source.Missing? {
      return file, answers;
    }
    var lines := SplitLines(source.text);
    var rulesText := "";
    var i := 0;
    while i < |lines|
      invariant 0 <= i <= |lines|
      invariant rulesText == JoinLines(lines[..i])
    {
      assert lines[..i + 1] == lines[..i] + [lines[i]];
      JoinLinesSnoc(lines[..i], lines[i]);
      rulesText := rulesText + lines[i] + "\n";
      i := i + 1;
    }
    assert lines[..i] == lines;
    result, rest := ImportText(file, rulesText, answers, unquote, unescape);
  }

  /** What importRulesFromURL does to the store, given the response body (None when the fetch fails). */
  function ImportURLEffect(file: File, body: Option<string>, answers: seq<string>,
                           unquote: string -> Option<string>, unescape: string -> string): (File, seq<string>)
  {
    match body
    case None => (file, answers)
    case Some(text) =>
      MergeAsWritten(file, ExtractedRules(unescape(text), unescape), ExistingNames(file), answers, unquote)
  }

  /** importRulesFromURL: the whole body is unescaped before the rules are extracted from it. */
  method ImportFromURL(file: File, body: Option<string>, answers: seq<string>,
                       unquote: string -> Option<string>, unescape: string -> string)
    returns (result: File, rest: seq<string>)
    ensures (result, rest) == ImportURLEffect(file, body, answers, unquote, unescape)
  {
    if body.None? {
      return file, answers;
    }
    var rulesText := unescape(body.value);
    result, rest := ImportText(file, rulesText, answers, unquote, unescape);
  }

  /** Lines that a scan gives back unchanged: the imported text is then the file's own text. */
  lemma SourceTextKept(lines: seq<string>)
    requires AllSingle(lines)
    ensures JoinLines(SplitLines(JoinLines(lines))) == JoinLines(lines)
  {
    SplitJoinLines(lines);
  }

  /** A rule the program skips, or one whose name is already present (and which is then declined). */
  predicate Declined(rule: string, existing: set<string>) {
    ParseImportedAsWritten(rule).None? || ParseImportedAsWritten(rule).value.0 in existing
  }

  /** How many of the rules ask the overwrite question of the merge itself. */
  function AskedCount(rules: seq<string>, existing: set<string>): nat
    decreases |rules|
  {
    if rules == [] then 0
    else
      var asked := ParseImportedAsWritten(rules[0]).Some? && ParseImportedAsWritten(rules[0]).value.0 in existing;
      (if asked then 1 else 0) + AskedCount(rules[1..], existing)
  }

  /** A declined rule leaves the store as it was and reads an answer only when it is asked about. */
  lemma DeclinedStep(file: File, rule: string, existing: set<string>, answers: seq<string>,
                     unquote: string -> Option<string>)
    requires Declined(rule, existing) && Answer(answers) != "y"
    ensures MergeStepAsWritten(file, rule, existing, answers, unquote) ==
      (file, if ParseImportedAsWritten(rule).Some? then Remaining(answers) else answers)
  {
  }

  /** Reading one answer and then `n` more is reading `n + 1`. */
  lemma DropRemaining(answers: seq<string>, n: nat)
    ensures Drop(Remaining(answers), n) == Drop(answers, n + 1)
  {
    if answers != [] && n < |answers| - 1 {
      assert answers[1..][n..] == answers[n + 1..];
    }
  }

  /** No answer is "y". */
  predicate NoYes(answers: seq<string>) {
    forall k :: 0 <= k < |answers| ==> answers[k] != "y"
  }

  /** Without a "y" among the answers, the next one is not "y", nor is any answer after it. */
  lemma NoYesRemaining(answers: seq<string>)
    requires NoYes(answers)
    ensures Answer(answers) != "y" && NoYes(Remaining(answers))
  {
    if answers != [] {
      var rest := Remaining(answers);
      forall k | 0 <= k < |rest| ensures rest[k] != "y" {
        assert rest[k] == answers[k + 1];
      }
    }
  }

  /** Declined rules stay declined after the first one. */
  lemma DeclinedTail(rules: seq<string>, existing: set<string>)
    requires rules != [] && forall k :: 0 <= k < |rules| ==> Declined(rules[k], existing)
    ensures forall k :: 0 <= k < |rules[1..]| ==> Declined(rules[1..][k], existing)
  {
    forall k | 0 <= k < |rules[1..]| ensures Declined(rules[1..][k], existing) {
      assert rules[1..][k] == rules[k + 1];
    }
  }

  /**
   * When every rule is unparsable or already present and no answer is "y",
   * the store is left as it was and one answer is read per present rule.
   */
  lemma {:induction false} DeclineAllKeepsStore(file: File, rules: seq<string>, existing: set<string>,
                                                 answers: seq<string>, unquote: string -> Option<string>)
    requires forall k :: 0 <= k < |rules| ==> Declined(rules[k], existing)
    requires NoYes(answers)
    ensures MergeAsWritten(file, rules, existing, answers, unquote) == (file, Drop(answers, AskedCount(rules, existing)))
    decreases |rules|
  {
    if rules != [] {
      var asked := ParseImportedAsWritten(rules[0]).Some?;
      NoYesRemaining(answers);
      var rest := if asked then Remaining(answers) else answers;
      DeclinedStep(file, rules[0], existing, answers, unquote);
      DeclinedTail(rules, existing);
      DeclineAllKeepsStore(file, rules[1..], existing, rest, unquote);
      if asked {
        DropRemaining(answers, AskedCount(rules[1..], existing));
      }
    }
  }

  /** Merging one rule is one merge step. */
  lemma MergeSingle(file: File, rule: string, existing: set<string>, answers: seq<string>,
                    unquote: string -> Option<string>)
    ensures MergeAsWritten(file, [rule], existing, answers, unquote) ==
      MergeStepAsWritten(file, rule, existing, answers, unquote)
  {
    assert [rule][1..] == [];
  }

  /** Merging two rules is two merge steps. */
  lemma MergeTwo(file: File, r1: string, r2: string, existing: set<string>, answers: seq<string>,
                 unquote: string -> Option<string>)
    ensures var (f1, a1) := MergeStepAsWritten(file, r1, existing, answers, unquote);
      MergeAsWritten(file, [r1, r2], existing, answers, unquote) == MergeStepAsWritten(f1, r2, existing, a1, unquote)
  {
    var (f1, a1) := MergeStepAsWritten(file, r1, existing, answers, unquote);
    assert [r1, r2][1..] == [r2];
    MergeSingle(f1, r2, existing, a1, unquote);
  }

  /** A rule for a name outside the existing set is handed to createRule. */
  lemma NewNameStep(file: File, name: string, command: string, existing: set<string>, answers: seq<string>,
                    unquote: string -> Option<string>)
    requires '=' !in name && Trimmed(name) && Trimmed(command) && !Contains(command, " = ") && name !in existing
    ensures var (e, rest) := CreateEffect(file, name, command, answers, unquote);
      MergeStepAsWritten(file, RuleLine(name, command), existing, answers, unquote) == (e.file, rest)
  {
    RuleLineParsed(name, command);
  }

  /**
   * A new rule for a name neither in the existing set nor in the store is
   * created without a question, and getCommand then finds its command.
   */
  lemma ImportNewRule(file: File, lines: seq<string>, name: string, command: string, existing: set<string>,
                      answers: seq<string>, unquote: string -> Option<string>)
    requires PlainUnquote(unquote) && StorableFile(file) && ReadLines(file) == Some(lines)
    requires '=' !in name && Trimmed(name) && Trimmed(command) && !Contains(command, " = ")
    requires Storable(RuleLine(name, command))
    requires name !in existing && !RuleExists(file, name)
    ensures var (result, rest) := MergeAsWritten(file, [RuleLine(name, command)], existing, answers, unquote);
      rest == answers && ReadLines(result) == Some(lines + [RuleLine(name, command)]) &&
      GetCommand(result, name) == Found(command)
  {
    MergeSingle(file, RuleLine(name, command), existing, answers, unquote);
    NewNameStep(file, name, command, existing, answers, unquote);
    CreateWhenAbsent(file, lines, name, command, answers, unquote);
  }

  /**
   * A rule for a name outside the existing set that the store nevertheless
   * defines goes through createRule, which asks whether to overwrite: on "y"
   * the first rule line for the name is replaced, otherwise nothing changes.
   */
  lemma PresentNameAsks(file: File, lines: seq<string>, name: string, command: string, existing: set<string>,
                        answers: seq<string>, unquote: string -> Option<string>, i: nat)
    requires PlainUnquote(unquote) && StorableFile(file) && ReadLines(file) == Some(lines)
    requires '=' !in name && Trimmed(name) && Trimmed(command) && !Contains(command, " = ")
    requires Storable(RuleLine(name, command))
    requires i < |lines| && Defines(lines[i], name) && forall j :: 0 <= j < i ==> !Defines(lines[j], name)
    requires name !in existing
    ensures var (result, rest) := MergeStepAsWritten(file, RuleLine(name, command), existing, answers, unquote);
      rest == Remaining(answers) &&
      (Answer(answers) != "y" ==> result == file) &&
      (Answer(answers) == "y" ==> GetCommand(result, name) == Found(command))
  {
    NewNameStep(file, name, command, existing, answers, unquote);
    CreateWhenPresent(file, lines, name, command, answers, unquote, i);
  }

  /** A rule for a name in the existing set asks once, and only "y" hands it to updateRule. */
  lemma ExistingStep(file: File, name: string, command: string, existing: set<string>, answers: seq<string>,
                     unquote: string -> Option<string>)
    requires '=' !in name && Trimmed(name) && Trimmed(command) && !Contains(command, " = ") && name in existing
    ensures MergeStepAsWritten(file, RuleLine(name, command), existing, answers, unquote) ==
      (if Answer(answers) == "y" then UpdateEffect(file, name, command, unquote).file else file, Remaining(answers))
  {
    RuleLineParsed(name, command);
    assert MergeStepAsWritten(file, RuleLine(name, command), existing, answers, unquote) ==
      MergeParsed(file, name, command, existing, answers, unquote);
  }

  /**
   * A rule for a name in the existing set that the store defines: the merge
   * asks whether to overwrite it; on "y" updateRule replaces the first rule
   * line for the name, otherwise nothing changes.
   */
  lemma ExistingNameUpdated(file: File, lines: seq<string>, name: string, command: string, existing: set<string>,
                            answers: seq<string>, unquote: string -> Option<string>, i: nat)
    requires PlainUnquote(unquote) && StorableFile(file) && ReadLines(file) == Some(lines)
    requires '=' !in name && Trimmed(name) && Trimmed(command) && !Contains(command, " = ")
    requires Storable(RuleLine(name, command))
    requires i < |lines| && Defines(lines[i], name) && forall j :: 0 <= j < i ==> !Defines(lines[j], name)
    requires name in existing
    ensures var (result, rest) := MergeStepAsWritten(file, RuleLine(name, command), existing, answers, unquote);
      rest == Remaining(answers) &&
      (Answer(answers) != "y" ==> result == file) &&
      (Answer(answers) == "y" ==> GetCommand(result, name) == Found(command))
  {
    ExistingStep(file, name, command, existing, answers, unquote);
    UpdateWhenPresent(file, lines, name, command, unquote, i);
  }

  /**
   * The first of two rules with the same new name is created without a
   * question, as the last line of the store and its only rule for the name.
   */
  lemma FirstOfDuplicate(file: File, lines: seq<string>, name: string, command: string, existing: set<string>,
                         answers: seq<string>, unquote: string -> Option<string>)
    requires PlainUnquote(unquote) && StorableFile(file) && ReadLines(file) == Some(lines)
    requires '=' !in name && Trimmed(name) && Trimmed(command) && !Contains(command, " = ")
    requires Storable(RuleLine(name, command))
    requires name !in existing && !RuleExists(file, name)
    ensures var (f1, a1) := MergeStepAsWritten(file, RuleLine(name, command), existing, answers, unquote);
      var lines1 := lines + [RuleLine(name, command)];
      a1 == answers && StorableFile(f1) && ReadLines(f1) == Some(lines1) &&
      GetCommand(f1, name) == Found(command) &&
      Defines(lines1[|lines|], name) && forall j :: 0 <= j < |lines| ==> !Defines(lines1[j], name)
  {
    NewNameStep(file, name, command, existing, answers, unquote);
    CreateWhenAbsent(file, lines, name, command, answers, unquote);
    AppendedRuleOnly(lines, name, command);
  }

  /**
   * Two imported rules with the same new name: the first is created without
   * a question; the existing set, computed before the merge, does not hold
   * the name, so the second goes through createRule, which finds the first
   * and asks whether to overwrite it.
   */
  lemma DuplicateNameAsksAgain(file: File, lines: seq<string>, name: string, c1: string, c2: string,
                               existing: set<string>, answers: seq<string>, unquote: string -> Option<string>)
    requires PlainUnquote(unquote) && StorableFile(file) && ReadLines(file) == Some(lines)
    requires '=' !in name && Trimmed(name) && Trimmed(c1) && Trimmed(c2)
    requires !Contains(c1, " = ") && !Contains(c2, " = ")
    requires Storable(RuleLine(name, c1)) && Storable(RuleLine(name, c2))
    requires name !in existing && !RuleExists(file, name)
    ensures var (result, rest) := MergeAsWritten(file, [RuleLine(name, c1), RuleLine(name, c2)], existing, answers, unquote);
      rest == Remaining(answers) &&
      GetCommand(result, name) == Found(if Answer(answers) == "y" then c2 else c1)
  {
    MergeTwo(file, RuleLine(name, c1), RuleLine(name, c2), existing, answers, unquote);
    FirstOfDuplicate(file, lines, name, c1, existing, answers, unquote);
    var (f1, a1) := MergeStepAsWritten(file, RuleLine(name, c1), existing, answers, unquote);
    PresentNameAsks(f1, lines + [RuleLine(name, c1)], name, c2, existing, a1, unquote, |lines|);
  }

  /** A "y" for a listed name that no line defines reaches updateRule, which changes nothing. */
  lemma StaleStep(file: File, name: string, command: string, existing: set<string>,
                  more: seq<string>, unquote: string -> Option<string>)
    requires file.Present? && '=' !in name && Trimmed(name) && !Contains(command, " = ")
    requires name in existing && !RuleExists(file, name)
    ensures MergeStepAsWritten(file, RuleLine(name, command), existing, ["y"] + more, unquote) == (file, more)
  {
    AsWrittenAgrees(name, command);
    ParseRuleLine(name, command);
    EditWhenAbsent(file, name, TrimSpace(command), unquote);
    assert Answer(["y"] + more) == "y";
    assert Remaining(["y"] + more) == more;
  }

  /**
   * A name that getAllRules lists but no line defines (a line such as
   * "foo=bar") is in the existing set; a "y" then reaches updateRule, which
   * finds no rule, and the store is left as it was.
   */
  lemma StaleExistingName(file: File, name: string, command: string, existing: set<string>,
                          more: seq<string>, unquote: string -> Option<string>)
    requires file.Present? && '=' !in name && Trimmed(name) && !Contains(command, " = ")
    requires name in existing && !RuleExists(file, name)
    ensures MergeAsWritten(file, [RuleLine(name, command)], existing, ["y"] + more, unquote) == (file, more)
  {
    MergeSingle(file, RuleLine(name, command), existing, ["y"] + more, unquote);
    StaleStep(file, name, command, existing, more, unquote);
  }

  /**
   * Exported content written to a file and imported from it: the merge sees
   * exactly the exported rules, in order.
   */
  lemma ExportThenImport(pairs: seq<(string, string)>, comment: string, unescape: string -> string)
    requires forall k :: 0 <= k < |pairs| ==> Recoverable(pairs[k], unescape)
    requires forall k :: 0 <= k < |pairs| ==> '\n' !in pairs[k].0
    requires '\n' !in comment && !EndsWithCR("#" + comment) && !Contains("#" + comment, "b:")
    ensures var text := JoinLines(Header(comment) + ExportLines(pairs));
      ExtractedRules(JoinLines(SplitLines(text)), unescape) == RuleLines(pairs)
  {
    var content := Header(comment) + ExportLines(pairs);
    var text := JoinLines(content);
    forall k | 0 <= k < |pairs| ensures '\n' !in pairs[k].1 {
      assert Recoverable(pairs[k], unescape);
    }
    ExportLinesSingle(pairs, comment);
    SourceTextKept(content);
    assert JoinLines(SplitLines(text)) == text;
    ExportRoundTrip(pairs, comment, unescape);
  }
}

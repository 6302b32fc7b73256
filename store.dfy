/**
 * The rule store: the configuration file read as a sequence of lines, where
 * a rule for `name` is any line that starts with `name + " = "`. Lookups take
 * the first such line; createRule, updateRule and deleteRule edit the line
 * sequence by index and hand the result to writeLines.
 */
module RuleStore {
  import opened Wrappers
  import opened Text
  import opened Prompt
  import opened Lines

  /** The prefix every lookup anchors on. */
  function Key(name: string): string {
    name + " = "
  }

  /** `fmt.Sprintf("%s = %s", name, command)`: the line a rule is stored as. */
  function RuleLine(name: string, command: string): string {
    name + " = " + command
  }

  /** `line` is a rule line for `name`. */
  predicate Defines(line: string, name: string) {
    HasPrefix(line, Key(name))
  }

  /** The index of the first line that defines `name`. */
  function FirstRule(lines: seq<string>, name: string): (r: Option<nat>)
    decreases |lines|
    ensures r.Some? ==> r.value < |lines| && Defines(lines[r.value], name)
    ensures r.Some? ==> forall j :: 0 <= j < r.value ==> !Defines(lines[j], name)
    ensures r.None? <==> forall j :: 0 <= j < |lines| ==> !Defines(lines[j], name)
  {
    if lines == [] then None
    else if Defines(lines[0], name) then Some(0)
    else match FirstRule(lines[1..], name)
      case None => None
      case Some(i) => Some(i + 1)
  }

  /** How many lines define `name`. */
  function RuleCount(lines: seq<string>, name: string): nat
    decreases |lines|
  {
    if lines == [] then 0
    else (if Defines(lines[0], name) then 1 else 0) + RuleCount(lines[1..], name)
  }

  lemma {:induction false} RuleCountAppend(a: seq<string>, b: seq<string>, name: string)
    ensures RuleCount(a + b, name) == RuleCount(a, name) + RuleCount(b, name)
  {
    if a == [] {
      assert a + b == b;
    } else {
      assert (a + b)[0] == a[0];
      assert (a + b)[1..] == a[1..] + b;
      RuleCountAppend(a[1..], b, name);
    }
  }

  /** A rule line for `name` with any command defines `name`. */
  lemma RuleLineDefines(name: string, command: string)
    ensures Defines(RuleLine(name, command), name)
    ensures TrimPrefix(RuleLine(name, command), Key(name)) == command
  {
    assert RuleLine(name, command)[..|Key(name)|] == Key(name);
    assert RuleLine(name, command)[|Key(name)|..] == command;
  }

  // ---------------------------------------------------------------------------
  // Results of the editing commands

  /** What an editing command reports. */
  datatype Outcome =
    | Done          // "successfully added", "updated" or "deleted"
    | Cancelled     // the user did not answer "y" to the overwrite question
    | NotFound      // "Rule '...' not found."
    | OpenFailed    // the configuration file could not be opened (for reading, or in deleteAllRules for writing)
    | WriteFailed   // writeLines returned an error

  /** The store after a command and what the command reported. */
  datatype Effect = Effect(file: File, outcome: Outcome)

  /** The lines createRule writes: the first rule for `name` replaced, or a new rule appended; None when the user declines. */
  function CreatedLines(lines: seq<string>, name: string, command: string, answer: string): Option<seq<string>> {
    match FirstRule(lines, name)
    case None => Some(lines + [RuleLine(name, command)])
    case Some(i) => if answer == "y" then Some(lines[i := RuleLine(name, command)]) else None
  }

  /** The lines updateRule writes; None when no line defines `name`. */
  function UpdatedLines(lines: seq<string>, name: string, command: string): Option<seq<string>> {
    match FirstRule(lines, name)
    case None => None
    case Some(i) => Some(lines[i := RuleLine(name, command)])
  }

  /** The lines deleteRule writes; None when no line defines `name`. */
  function DeletedLines(lines: seq<string>, name: string): Option<seq<string>> {
    match FirstRule(lines, name)
    case None => None
    case Some(i) => Some(lines[..i] + lines[i + 1..])
  }

  /**
   * `out` handed to writeLines as the program has it: the file is rewritten,
   * or emptied when some line does not unquote.
   */
  function Commit(out: seq<string>, unquote: string -> Option<string>): (e: Effect)
    ensures e.outcome == Done <==> forall k :: 0 <= k < |out| ==> unquote(out[k]).Some?
    ensures e.outcome == Done ==> e.file == Present(JoinLines(UnquoteAll(out, unquote).value))
    ensures e.outcome != Done ==> e == Effect(Present(""), WriteFailed)
  {
    var w := WriteLinesAsWritten(out, unquote);
    Effect(w.0, if w.1 then Done else WriteFailed)
  }

  /** createRule as a function of the store and the user's answers: its effect and the answers it left unread. */
  function CreateEffect(file: File, name: string, command: string, answers: seq<string>,
                        unquote: string -> Option<string>): (Effect, seq<string>)
  {
    match ReadLines(file)
    case None => (Effect(file, OpenFailed), answers)
    case Some(lines) =>
      var rest := if FirstRule(lines, name).Some? then Remaining(answers) else answers;
      match CreatedLines(lines, name, command, Answer(answers))
      case None => (Effect(file, Cancelled), rest)
      case Some(out) => (Commit(out, unquote), rest)
  }

  /** updateRule as a function of the store. */
  function UpdateEffect(file: File, name: string, command: string, unquote: string -> Option<string>): Effect {
    match ReadLines(file)
    case None => Effect(file, OpenFailed)
    case Some(lines) =>
      match UpdatedLines(lines, name, command)
      case None => Effect(file, NotFound)
      case Some(out) => Commit(out, unquote)
  }

  /** deleteRule as a function of the store. */
  function DeleteEffect(file: File, name: string, unquote: string -> Option<string>): Effect {
    match ReadLines(file)
    case None => Effect(file, OpenFailed)
    case Some(lines) =>
      match DeletedLines(lines, name)
      case None => Effect(file, NotFound)
      case Some(out) => Commit(out, unquote)
  }

  // ---------------------------------------------------------------------------
  // The editing commands

  /**
   * createRule: reads the store, looks for the first rule line for `name`;
   * if there is one, asks whether to overwrite it and, on "y", replaces that
   * line in place; if there is none, appends the rule; then rewrites the file.
   */
  method CreateRule(file: File, name: string, command: string, answers: seq<string>,
                    unquote: string -> Option<string>) returns (e: Effect, rest: seq<string>)
    ensures (e, rest) == CreateEffect(file, name, command, answers, unquote)
  {
    if file.Missing? {
      return Effect(file, OpenFailed), answers;
    }
    var lines := SplitLines(file.text);
    ghost var original := lines;
    var found := false;
    rest := answers;
    var i := 0;
    while i < |lines|
      invariant 0 <= i <= |lines|
      invariant lines == original && rest == answers && !found
      invariant forall j :: 0 <= j < i ==> !Defines(original[j], name)
    {
      if Defines(lines[i], name) {
        var response := Answer(answers);
        rest := Remaining(answers);
        if response != "y" {
          return Effect(file, Cancelled), rest;
        }
        lines := lines[i := RuleLine(name, command)];
        found := true;
        break;
      }
      i := i + 1;
    }
    if !found {
      lines := lines + [RuleLine(name, command)];
    }
    var w := WriteLinesAsWritten(lines, unquote);
    e := Effect(w.0, if w.1 then Done else WriteFailed);
  }

  /** updateRule: replaces the first rule line for `name` in place and rewrites the file. */
  method UpdateRule(file: File, name: string, command: string, unquote: string -> Option<string>)
    returns (e: Effect)
    ensures e == UpdateEffect(file, name, command, unquote)
  {
    if file.Missing? {
      return Effect(file, OpenFailed);
    }
    var lines := SplitLines(file.text);
    ghost var original := lines;
    var found := false;
    var i := 0;
    while i < |lines|
      invariant 0 <= i <= |lines|
      invariant lines == original && !found
      invariant forall j :: 0 <= j < i ==> !Defines(original[j], name)
    {
      if Defines(lines[i], name) {
        lines := lines[i := RuleLine(name, command)];
        found := true;
        break;
      }
      i := i + 1;
    }
    if !found {
      return Effect(file, NotFound);
    }
    var w := WriteLinesAsWritten(lines, unquote);
    e := Effect(w.0, if w.1 then Done else WriteFailed);
  }

  /** deleteRule: splices out the first rule line for `name` and rewrites the file. */
  method DeleteRule(file: File, name: string, unquote: string -> Option<string>) returns (e: Effect)
    ensures e == DeleteEffect(file, name, unquote)
  {
    if file.Missing? {
      return Effect(file, OpenFailed);
    }
    var lines := SplitLines(file.text);
    ghost var original := lines;
    var found := false;
    var i := 0;
    while i < |lines|
      invariant 0 <= i <= |lines|
      invariant lines == original && !found
      invariant forall j :: 0 <= j < i ==> !Defines(original[j], name)
    {
      if Defines(lines[i], name) {
        lines := lines[..i] + lines[i + 1..];
        found := true;
        break;
      }
      i := i + 1;
    }
    if !found {
      return Effect(file, NotFound);
    }
    var w := WriteLinesAsWritten(lines, unquote);
    e := Effect(w.0, if w.1 then Done else WriteFailed);
  }

  /**
   * deleteAllRules: truncates the configuration file; opening it for writing
   * (without creating it) fails when it does not exist.
   */
  function DeleteAllRules(file: File): (r: (File, Outcome))
    ensures r.1 == Done <==> file.Present?
    ensures file.Present? ==> ReadLines(r.0) == Some([])
    ensures file.Missing? ==> r == (file, OpenFailed)
  {
    match file
    case Missing => (file, OpenFailed)
    case Present(_) => (Present(""), Done)
  }

  // ---------------------------------------------------------------------------
  // Lookups

  /** What a lookup finds. */
  datatype Lookup = Found(text: string) | NoSuchRule | NoFile

  /** Line `i` is the first line that defines `name`. */
  predicate FirstDefining(lines: seq<string>, name: string, i: nat) {
    i < |lines| && Defines(lines[i], name) && forall j :: 0 <= j < i ==> !Defines(lines[j], name)
  }

  /** No line defines `name`. */
  predicate NoneDefines(lines: seq<string>, name: string) {
    forall j :: 0 <= j < |lines| ==> !Defines(lines[j], name)
  }

  /** `command` is the trimmed text after `name + " = "` on the first line that defines `name`. */
  ghost predicate CommandOfFirst(lines: seq<string>, name: string, command: string) {
    exists i: nat :: FirstDefining(lines, name, i) && command == TrimSpace(lines[i][|Key(name)|..])
  }

  /** `line` is the first line that defines `name`. */
  ghost predicate IsFirstRule(lines: seq<string>, name: string, line: string) {
    exists i: nat :: FirstDefining(lines, name, i) && line == lines[i]
  }

  /** getCommand: the trimmed text after `name + " = "` on the first rule line for `name`. */
  function GetCommand(file: File, name: string): (r: Lookup)
    ensures r.NoFile? <==> file.Missing?
    ensures r.NoSuchRule? <==> file.Present? && NoneDefines(SplitLines(file.text), name)
  {
    match ReadLines(file)
    case None => NoFile
    case Some(lines) =>
      match FirstRule(lines, name)
      case None => NoSuchRule
      case Some(i) => Found(TrimSpace(TrimPrefix(lines[i], Key(name))))
  }

  /** What getCommand finds is the trimmed text after the key on the first line that defines `name`. */
  lemma GetCommandFinds(file: File, name: string)
    ensures GetCommand(file, name).Found? ==>
      file.Present? && CommandOfFirst(SplitLines(file.text), name, GetCommand(file, name).text)
  {
    if GetCommand(file, name).Found? {
      var lines := SplitLines(file.text);
      var i := FirstRule(lines, name).value;
      assert FirstDefining(lines, name, i);
    }
  }

  /** ruleExists: some line of the store defines `name`; false when the store cannot be read. */
  predicate RuleExists(file: File, name: string)
    ensures RuleExists(file, name) <==> file.Present? && !NoneDefines(SplitLines(file.text), name)
  {
    file.Present? &&
    var lines := SplitLines(file.text);
    exists j :: 0 <= j < |lines| && Defines(lines[j], name)
  }

  /** showRule: the whole first rule line for `name`. */
  function ShowRule(file: File, name: string): (r: Lookup)
    ensures r.NoFile? <==> file.Missing?
    ensures r.NoSuchRule? <==> file.Present? && NoneDefines(SplitLines(file.text), name)
  {
    match ReadLines(file)
    case None => NoFile
    case Some(lines) =>
      match FirstRule(lines, name)
      case None => NoSuchRule
      case Some(i) => Found(lines[i])
  }

  /** What showRule prints is the first line that defines `name`. */
  lemma ShowRuleFinds(file: File, name: string)
    ensures ShowRule(file, name).Found? ==>
      file.Present? && IsFirstRule(SplitLines(file.text), name, ShowRule(file, name).text)
  {
    if ShowRule(file, name).Found? {
      var lines := SplitLines(file.text);
      var i := FirstRule(lines, name).value;
      assert FirstDefining(lines, name, i);
    }
  }

  /** getCommand finds a command exactly when ruleExists holds, and fails to open exactly when the file is missing. */
  lemma LookupAgrees(file: File, name: string)
    ensures GetCommand(file, name).Found? <==> RuleExists(file, name)
    ensures GetCommand(file, name).NoSuchRule? <==> file.Present? && !RuleExists(file, name)
    ensures GetCommand(file, name).NoFile? <==> file.Missing?
  {
    if file.Present? {
      var lines := SplitLines(file.text);
      if RuleExists(file, name) {
        var j :| 0 <= j < |lines| && Defines(lines[j], name);
        assert FirstRule(lines, name).Some?;
      }
    }
  }

  /** showRule prints the line whose trimmed remainder getCommand returns. */
  lemma ShowAgreesWithGet(file: File, name: string)
    ensures ShowRule(file, name).Found? <==> GetCommand(file, name).Found?
    ensures ShowRule(file, name).Found? ==>
      Defines(ShowRule(file, name).text, name) &&
      GetCommand(file, name).text == TrimSpace(ShowRule(file, name).text[|Key(name)|..])
  {
  }

  // ---------------------------------------------------------------------------
  // Properties of the editing commands

  /** A store whose every line is written and read back unchanged. */
  predicate StorableFile(file: File) {
    file.Present? &&
    var lines := SplitLines(file.text);
    forall k :: 0 <= k < |lines| ==> Storable(lines[k])
  }

  /** The first rule line for `name`, characterised by its position. */
  lemma FirstRuleAt(lines: seq<string>, name: string, i: nat)
    requires i < |lines| && Defines(lines[i], name)
    requires forall j :: 0 <= j < i ==> !Defines(lines[j], name)
    ensures FirstRule(lines, name) == Some(i)
  {
  }

  /** A rule line appended to lines that do not define `name` becomes its only rule line. */
  lemma AppendedRuleOnly(lines: seq<string>, name: string, command: string)
    requires forall j :: 0 <= j < |lines| ==> !Defines(lines[j], name)
    ensures var out := lines + [RuleLine(name, command)];
      Defines(out[|lines|], name) && forall j :: 0 <= j < |lines| ==> !Defines(out[j], name)
  {
    var out := lines + [RuleLine(name, command)];
    assert forall j :: 0 <= j < |lines| ==> out[j] == lines[j];
    RuleLineDefines(name, command);
  }

  /** Storable lines written back leave a storable store that reads as those lines. */
  lemma CommitStorable(file: File, out: seq<string>, unquote: string -> Option<string>)
    requires PlainUnquote(unquote)
    requires forall k :: 0 <= k < |out| ==> Storable(out[k])
    ensures Commit(out, unquote).outcome == Done
    ensures ReadLines(Commit(out, unquote).file) == Some(out)
    ensures StorableFile(Commit(out, unquote).file)
  {
    WriteReadBack(file, out, unquote);
    WriteAgrees(file, out, unquote);
  }

  /** After the first rule line for `name` is set to a rule for `name`, getCommand returns its command. */
  lemma LookupAfterWrite(file: File, out: seq<string>, name: string, command: string, i: nat)
    requires ReadLines(file) == Some(out)
    requires i < |out| && out[i] == RuleLine(name, command)
    requires forall j :: 0 <= j < i ==> !Defines(out[j], name)
    ensures GetCommand(file, name) == Found(TrimSpace(command))
  {
    RuleLineDefines(name, command);
    FirstRuleAt(out, name, i);
  }

  /**
   * createRule for a name no line defines: no question is asked, the rule is
   * appended after every existing line, and getCommand then finds it.
   */
  lemma CreateWhenAbsent(file: File, lines: seq<string>, name: string, command: string, answers: seq<string>,
                         unquote: string -> Option<string>)
    requires PlainUnquote(unquote) && StorableFile(file) && Storable(RuleLine(name, command))
    requires ReadLines(file) == Some(lines) && !RuleExists(file, name)
    ensures var (e, rest) := CreateEffect(file, name, command, answers, unquote);
      e.outcome == Done && rest == answers &&
      ReadLines(e.file) == Some(lines + [RuleLine(name, command)]) &&
      StorableFile(e.file) &&
      GetCommand(e.file, name) == Found(TrimSpace(command))
  {
    var out := lines + [RuleLine(name, command)];
    assert FirstRule(lines, name).None?;
    forall k | 0 <= k < |out| ensures Storable(out[k]) && (k < |lines| ==> out[k] == lines[k]) {
      if k < |lines| { assert out[k] == lines[k]; }
    }
    CommitStorable(file, out, unquote);
    LookupAfterWrite(CreateEffect(file, name, command, answers, unquote).0.file, out, name, command, |lines|);
  }

  /**
   * createRule for a name some line defines: one question is asked; on "y"
   * only the first rule line for `name` is replaced, in place; on any other
   * answer nothing is written.
   */
  lemma CreateWhenPresent(file: File, lines: seq<string>, name: string, command: string, answers: seq<string>,
                          unquote: string -> Option<string>, i: nat)
    requires PlainUnquote(unquote) && StorableFile(file) && Storable(RuleLine(name, command))
    requires ReadLines(file) == Some(lines)
    requires i < |lines| && Defines(lines[i], name)
    requires forall j :: 0 <= j < i ==> !Defines(lines[j], name)
    ensures var (e, rest) := CreateEffect(file, name, command, answers, unquote);
      rest == Remaining(answers) &&
      (Answer(answers) != "y" ==> e.file == file && e.outcome == Cancelled) &&
      (Answer(answers) == "y" ==>
        e.outcome == Done &&
        ReadLines(e.file) == Some(lines[i := RuleLine(name, command)]) &&
        StorableFile(e.file) &&
        GetCommand(e.file, name) == Found(TrimSpace(command)))
  {
    FirstRuleAt(lines, name, i);
    if Answer(answers) == "y" {
      var out := lines[i := RuleLine(name, command)];
      forall k | 0 <= k < |out| ensures Storable(out[k]) && (k != i ==> out[k] == lines[k]) {
      }
      CommitStorable(file, out, unquote);
      LookupAfterWrite(CreateEffect(file, name, command, answers, unquote).0.file, out, name, command, i);
    }
  }

  /** createRule for a name some line defines, answered with anything but "y": nothing is written, whatever the store holds. */
  lemma CreateCancelled(file: File, name: string, command: string, answers: seq<string>,
                        unquote: string -> Option<string>)
    requires RuleExists(file, name) && Answer(answers) != "y"
    ensures CreateEffect(file, name, command, answers, unquote) == (Effect(file, Cancelled), Remaining(answers))
  {
  }

  /** updateRule replaces only the first rule line for `name`, in place, keeping every other line. */
  lemma UpdateWhenPresent(file: File, lines: seq<string>, name: string, command: string,
                          unquote: string -> Option<string>, i: nat)
    requires PlainUnquote(unquote) && StorableFile(file) && Storable(RuleLine(name, command))
    requires ReadLines(file) == Some(lines)
    requires i < |lines| && Defines(lines[i], name)
    requires forall j :: 0 <= j < i ==> !Defines(lines[j], name)
    ensures var e := UpdateEffect(file, name, command, unquote);
      e.outcome == Done &&
      ReadLines(e.file) == Some(lines[i := RuleLine(name, command)]) &&
      StorableFile(e.file) &&
      GetCommand(e.file, name) == Found(TrimSpace(command))
  {
    FirstRuleAt(lines, name, i);
    var out := lines[i := RuleLine(name, command)];
    forall k | 0 <= k < |out| ensures Storable(out[k]) && (k != i ==> out[k] == lines[k]) {
    }
    CommitStorable(file, out, unquote);
    LookupAfterWrite(UpdateEffect(file, name, command, unquote).file, out, name, command, i);
  }

  /**
   * deleteRule removes exactly the first rule line for `name`: the lines
   * before it and after it keep their order, and one fewer line defines `name`.
   */
  lemma DeleteWhenPresent(file: File, lines: seq<string>, name: string, unquote: string -> Option<string>, i: nat)
    requires PlainUnquote(unquote) && StorableFile(file)
    requires ReadLines(file) == Some(lines)
    requires i < |lines| && Defines(lines[i], name)
    requires forall j :: 0 <= j < i ==> !Defines(lines[j], name)
    ensures var e := DeleteEffect(file, name, unquote);
      e.outcome == Done && StorableFile(e.file) &&
      ReadLines(e.file) == Some(lines[..i] + lines[i + 1..]) &&
      RuleCount(lines[..i] + lines[i + 1..], name) == RuleCount(lines, name) - 1
  {
    FirstRuleAt(lines, name, i);
    var out := lines[..i] + lines[i + 1..];
    SpliceStorable(lines, i);
    CommitStorable(file, out, unquote);
    RemoveRuleLine(lines, name, i);
  }

  /** Every line is written and read back unchanged. */
  predicate AllStorable(lines: seq<string>) {
    forall k :: 0 <= k < |lines| ==> Storable(lines[k])
  }

  /** Splicing a line out of storable lines leaves storable lines. */
  lemma SpliceStorable(lines: seq<string>, i: nat)
    requires i < |lines| && forall k :: 0 <= k < |lines| ==> Storable(lines[k])
    ensures AllStorable(lines[..i] + lines[i + 1..])
  {
    var out := lines[..i] + lines[i + 1..];
    forall k | 0 <= k < |out| ensures Storable(out[k]) {
      if k < i { assert out[k] == lines[k]; } else { assert out[k] == lines[k + 1]; }
    }
  }

  /** Removing a line that defines `name` leaves one rule line fewer for `name`. */
  lemma RemoveRuleLine(lines: seq<string>, name: string, i: nat)
    requires i < |lines| && Defines(lines[i], name)
    ensures RuleCount(lines[..i] + lines[i + 1..], name) == RuleCount(lines, name) - 1
  {
    assert lines == (lines[..i] + [lines[i]]) + lines[i + 1..];
    RuleCountAppend(lines[..i] + [lines[i]], lines[i + 1..], name);
    RuleCountAppend(lines[..i], [lines[i]], name);
    RuleCountAppend(lines[..i], lines[i + 1..], name);
    assert RuleCount([lines[i]], name) == 1 + RuleCount([], name);
  }

  /** updateRule and deleteRule report a missing rule and write nothing. */
  lemma EditWhenAbsent(file: File, name: string, command: string, unquote: string -> Option<string>)
    requires file.Present? && !RuleExists(file, name)
    ensures UpdateEffect(file, name, command, unquote) == Effect(file, NotFound)
    ensures DeleteEffect(file, name, unquote) == Effect(file, NotFound)
  {
    assert FirstRule(SplitLines(file.text), name).None?;
  }

  /** After deleteAllRules no rule can be found. */
  lemma DeleteAllEmpties(file: File, name: string)
    requires file.Present?
    ensures GetCommand(DeleteAllRules(file).0, name) == NoSuchRule
    ensures !RuleExists(DeleteAllRules(file).0, name)
  {
  }

  // ---------------------------------------------------------------------------
  // Listing

  /** A line cut at its first '=' (strings.SplitN(line, "=", 2)), both halves trimmed; None when it holds no '='. */
  function Entry(line: string): (r: Option<(string, string)>)
    ensures r.None? <==> '=' !in line
    ensures r.Some? ==> '=' !in r.value.0
  {
    match SplitFirst(line, "=")
    case None =>
      forall k: nat | k < |line| ensures line[k] != '=' {
        assert !OccursAt(line, "=", k);
        assert line[k..k + 1] == [line[k]];
      }
      None
    case Some((n, c)) =>
      assert '=' in line by {
        assert line == n + "=" + c;
        assert line[|n|] == '=';
      }
      assert '=' !in n by {
        forall k: nat | k < |n| ensures n[k] != '=' {
          assert !OccursAt(n, "=", k);
          assert n[k..k + 1] == [n[k]];
        }
      }
      Some((TrimSpace(n), TrimSpace(c)))
  }

  /** The entry of one line, as a sequence of zero or one entries. */
  function EntryOf(line: string): seq<(string, string)> {
    match Entry(line)
    case None => []
    case Some(e) => [e]
  }

  /** The entries of the lines that hold a '=', in file order (what listRules prints). */
  function Entries(lines: seq<string>): (r: seq<(string, string)>)
    decreases |lines|
    ensures |r| <= |lines|
  {
    if lines == [] then [] else EntryOf(lines[0]) + Entries(lines[1..])
  }

  /** Listing distributes over concatenated stores. */
  lemma {:induction false} EntriesAppend(a: seq<string>, b: seq<string>)
    ensures Entries(a + b) == Entries(a) + Entries(b)
  {
    if a == [] {
      assert a + b == b;
    } else {
      assert (a + b)[0] == a[0];
      assert (a + b)[1..] == a[1..] + b;
      EntriesAppend(a[1..], b);
    }
  }

  /** The entry of every line that holds a '=' is listed. */
  lemma EntryListed(lines: seq<string>, j: nat)
    requires j < |lines| && Entry(lines[j]).Some?
    ensures Entry(lines[j]).value in Entries(lines)
  {
    var before, after := lines[..j], lines[j + 1..];
    SplitAround(lines, j);
    EntriesAppend(before, [lines[j]] + after);
    EntriesAppend([lines[j]], after);
    assert Entries([lines[j]]) == EntryOf(lines[j]) + Entries([]);
    var es := Entries(before);
    var rest := [Entry(lines[j]).value] + Entries(after);
    assert Entries(lines) == es + rest;
    assert (es + rest)[|es|] == rest[0];
  }

  /** A listed entry: a trimmed name free of '=', and a trimmed command. */
  predicate WellFormedEntry(e: (string, string)) {
    '=' !in e.0 && Trimmed(e.0) && Trimmed(e.1)
  }

  /** Every listed name is trimmed and free of '=', and so is every listed command trimmed. */
  lemma {:induction false} EntriesWellFormed(lines: seq<string>)
    ensures forall k :: 0 <= k < |Entries(lines)| ==> WellFormedEntry(Entries(lines)[k])
  {
    if lines != [] {
      EntriesWellFormed(lines[1..]);
      var head, tail := EntryOf(lines[0]), Entries(lines[1..]);
      assert Entries(lines) == head + tail;
      forall k | 0 <= k < |head + tail| ensures WellFormedEntry((head + tail)[k]) {
        if k < |head| {
          assert (head + tail)[k] == head[k] == Entry(lines[0]).value;
        } else {
          assert (head + tail)[k] == tail[k - |head|];
        }
      }
    }
  }

  /** Nothing is listed exactly when no line holds a '='. */
  lemma {:induction false} EntriesEmpty(lines: seq<string>)
    ensures Entries(lines) == [] <==> forall k :: 0 <= k < |lines| ==> '=' !in lines[k]
  {
    if lines != [] {
      EntriesEmpty(lines[1..]);
      assert forall k :: 1 <= k < |lines| ==> lines[k] == lines[1..][k - 1];
    }
  }

  /** The names of a list of entries, in order. */
  function Names(entries: seq<(string, string)>): (names: seq<string>)
    decreases |entries|
    ensures |names| == |entries|
  {
    if entries == [] then [] else [entries[0].0] + Names(entries[1..])
  }

  lemma {:induction false} NameAt(entries: seq<(string, string)>, k: nat)
    requires k < |entries|
    ensures Names(entries)[k] == entries[k].0
  {
    if k > 0 {
      NameAt(entries[1..], k - 1);
    }
  }

  lemma {:induction false} NamesAppend(a: seq<(string, string)>, b: seq<(string, string)>)
    ensures Names(a + b) == Names(a) + Names(b)
  {
    if a == [] {
      assert a + b == b;
    } else {
      assert (a + b)[0] == a[0];
      assert (a + b)[1..] == a[1..] + b;
      NamesAppend(a[1..], b);
    }
  }

  /** The names getAllRules collects; none when the store cannot be opened. */
  function AllRuleNames(file: File): seq<string> {
    match ReadLines(file)
    case None => []
    case Some(lines) => Names(Entries(lines))
  }

  /** What listRules shows. */
  datatype Listing = Unreadable | Listed(entries: seq<(string, string)>)

  /** The entry of a line, as listRules and getAllRules cut it with strings.SplitN. */
  lemma EntryOfCut(line: string)
    ensures SplitFirst(line, "=").Some? ==>
      EntryOf(line) == [(TrimSpace(SplitFirst(line, "=").value.0), TrimSpace(SplitFirst(line, "=").value.1))]
    ensures SplitFirst(line, "=").None? ==> EntryOf(line) == []
  {
  }

  /** The name of a line, as getAllRules cuts it. */
  lemma NameOfCut(line: string)
    ensures SplitFirst(line, "=").Some? ==> Names(EntryOf(line)) == [TrimSpace(SplitFirst(line, "=").value.0)]
    ensures SplitFirst(line, "=").None? ==> Names(EntryOf(line)) == []
  {
    EntryOfCut(line);
    if SplitFirst(line, "=").Some? {
      var e := EntryOf(line);
      assert Names(e) == [e[0].0] + Names(e[1..]);
    }
  }

  /** The names listed for some lines: those of the first line, then those of the others. */
  lemma NamesFront(lines: seq<string>)
    requires lines != []
    ensures Names(Entries(lines)) == Names(EntryOf(lines[0])) + Names(Entries(lines[1..]))
  {
    NamesAppend(EntryOf(lines[0]), Entries(lines[1..]));
  }

  /**
   * listRules: every line that holds a '=' as its trimmed text before and
   * after the first '='; other lines are skipped. An empty listing is the
   * "No rules have been created" message.
   */
  method ListRules(file: File) returns (r: Listing)
    ensures file.Missing? ==> r == Unreadable
    ensures file.Present? ==> r == Listed(Entries(SplitLines(file.text)))
  {
    if file.Missing? {
      return Unreadable;
    }
    var lines := SplitLines(file.text);
    var entries: seq<(string, string)> := [];
    var todo := lines;
    while todo != []
      invariant entries + Entries(todo) == Entries(lines)
      decreases |todo|
    {
      ghost var before := entries;
      var parts := SplitFirst(todo[0], "=");
      EntryOfCut(todo[0]);
      if parts.Some? {
        entries := entries + [(TrimSpace(parts.value.0), TrimSpace(parts.value.1))];
      }
      assert entries == before + EntryOf(todo[0]);
      ConcatAssoc(before, EntryOf(todo[0]), Entries(todo[1..]));
      todo := todo[1..];
    }
    assert entries + [] == entries;
    return Listed(entries);
  }

  /** getAllRules: the trimmed text before the first '=' of every line that holds one. */
  method GetAllRules(file: File) returns (names: seq<string>)
    ensures names == AllRuleNames(file)
  {
    names := [];
    if file.Missing? {
      return;
    }
    var lines := SplitLines(file.text);
    var todo := lines;
    while todo != []
      invariant names + Names(Entries(todo)) == Names(Entries(lines))
      decreases |todo|
    {
      ghost var before := names;
      var parts := SplitFirst(todo[0], "=");
      NameOfCut(todo[0]);
      NamesFront(todo);
      if parts.Some? {
        names := names + [TrimSpace(parts.value.0)];
      }
      assert names == before + Names(EntryOf(todo[0]));
      ConcatAssoc(before, Names(EntryOf(todo[0])), Names(Entries(todo[1..])));
      todo := todo[1..];
    }
    assert names + [] == names;
  }

  /** A rule line for a trimmed name without '=' is listed under that name. */
  lemma RuleLineEntry(name: string, command: string)
    requires '=' !in name && Trimmed(name)
    ensures Entry(RuleLine(name, command)) == Some((name, TrimSpace(" " + command)))
  {
    var line := RuleLine(name, command);
    assert line == (name + " ") + "=" + (" " + command);
    assert forall k :: 0 <= k < |name| ==> line[k] == name[k];
    forall k: nat | k < |name| + 1 ensures !OccursAt(line, "=", k) {
      if k < |name| { assert line[k..k + 1] == [name[k]]; } else { assert line[k..k + 1] == " "; }
    }
    assert OccursAt(line, "=", |name| + 1) by { assert line[|name| + 1..|name| + 2] == "="; }
    assert IndexFrom(line, "=", 0) == Some(|name| + 1);
    assert line[..|name| + 1] == name + " ";
    assert line[|name| + 2..] == " " + command;
    TrimSpaceTrailing(name, ' ');
  }

  /**
   * Every name ruleExists accepts, when it is trimmed and free of '=', is
   * one of the names getAllRules collects.
   */
  lemma ExistingRuleIsListed(file: File, name: string)
    requires RuleExists(file, name) && '=' !in name && Trimmed(name)
    ensures name in AllRuleNames(file)
  {
    var lines := SplitLines(file.text);
    var j :| 0 <= j < |lines| && Defines(lines[j], name);
    DefiningLineEntry(lines[j], name);
    ListedName(lines, j);
  }

  /** A rule line for a trimmed name free of '=' is listed under that name. */
  lemma DefiningLineEntry(line: string, name: string)
    requires Defines(line, name) && '=' !in name && Trimmed(name)
    ensures Entry(line).Some? && Entry(line).value.0 == name
  {
    assert line == RuleLine(name, line[|Key(name)|..]);
    RuleLineEntry(name, line[|Key(name)|..]);
  }

  /** The name of every line that holds a '=' is among the listed names. */
  lemma ListedName(lines: seq<string>, j: nat)
    requires j < |lines| && Entry(lines[j]).Some?
    ensures Entry(lines[j]).value.0 in Names(Entries(lines))
  {
    EntryListed(lines, j);
    var es := Entries(lines);
    var k :| 0 <= k < |es| && es[k] == Entry(lines[j]).value;
    NameAt(es, k);
  }

  /** A file holding one line. */
  lemma OneLine(l: string)
    requires '\n' !in l && !EndsWithCR(l)
    ensures SplitLines(l + "\n") == [l]
  {
    SplitJoinLines([l]);
    assert JoinLines([l]) == l + "\n" + JoinLines([]);
  }

  /** A line whose first '=' follows a name without '=' is listed as that name and the rest, both trimmed. */
  lemma EntryAtEquals(name: string, rest: string)
    requires '=' !in name
    ensures Entry(name + "=" + rest) == Some((TrimSpace(name), TrimSpace(rest)))
  {
    var line := name + "=" + rest;
    forall k: nat | k < |name| ensures !OccursAt(line, "=", k) {
      assert line[k..k + 1] == [name[k]];
    }
    assert OccursAt(line, "=", |name|) by { assert line[|name|..|name| + 1] == "="; }
    assert IndexFrom(line, "=", 0) == Some(|name|);
    assert line[..|name|] == name && line[|name| + 1..] == rest;
  }

  /** A file of one line "name=rest" lists that name. */
  lemma EqualsLineListed(name: string, rest: string)
    requires '=' !in name && Trimmed(name) && SingleLine(name + "=" + rest)
    ensures name in AllRuleNames(Present(name + "=" + rest + "\n"))
  {
    var line := name + "=" + rest;
    OneLine(line);
    EntryAtEquals(name, rest);
    TrimmedKept(name);
    NamesOfLine(line, name, TrimSpace(rest));
    AllRuleNamesOf(line + "\n", [line]);
  }

  /** The names of a store, from its lines. */
  lemma AllRuleNamesOf(text: string, lines: seq<string>)
    requires SplitLines(text) == lines
    ensures AllRuleNames(Present(text)) == Names(Entries(lines))
  {
  }

  /** One line listed as `name` makes a store of that line list `name` alone. */
  lemma NamesOfLine(line: string, name: string, command: string)
    requires Entry(line) == Some((name, command))
    ensures Names(Entries([line])) == [name]
  {
    assert EntryOf(line) == [(name, command)];
    assert Entries([line]) == [(name, command)] + Entries([]);
    assert Names([(name, command)]) == [name] + Names([]);
  }

  /** A line "name=rest" does not define `name`: the '=' stands where the key has its space. */
  lemma EqualsLineNotRule(name: string, rest: string)
    ensures !Defines(name + "=" + rest, name)
  {
    var line := name + "=" + rest;
    assert line[|name|] == '=' && Key(name)[|name|] == ' ';
    if |Key(name)| <= |line| {
      assert line[..|Key(name)|][|name|] == '=';
    }
  }

  /**
   * The converse fails: a line such as "foo=bar", with no space before the
   * '=', lists its name, yet no rule of that name exists.
   */
  lemma ListedNeedNotExist(name: string, rest: string)
    requires '=' !in name && Trimmed(name) && SingleLine(name + "=" + rest)
    ensures name in AllRuleNames(Present(name + "=" + rest + "\n"))
    ensures !RuleExists(Present(name + "=" + rest + "\n"), name)
    ensures GetCommand(Present(name + "=" + rest + "\n"), name) == NoSuchRule
  {
    EqualsLineListed(name, rest);
    OneLine(name + "=" + rest);
    EqualsLineNotRule(name, rest);
    LookupAgrees(Present(name + "=" + rest + "\n"), name);
  }
}

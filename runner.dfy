/**
 * runCommands: the names given on the command line are looked up one by one
 * with getCommand; a name that cannot be resolved is reported and skipped,
 * every resolved command has its placeholders filled by processBottles, and
 * the processed commands are joined with " && " into the one command line
 * that is handed to the shell. When no name resolves nothing is run.
 *
 * Running the shell (executeCommand) is left to the caller: the model
 * returns the command line it would run.
 */
module Runner {
  import opened Wrappers
  import opened Text
  import opened Prompt
  import opened Lines
  import opened RuleStore
  import opened Bottles

  /** The processed commands in request order, the names skipped, and the answers left. */
  datatype Assembly = Assembly(commands: seq<string>, skipped: seq<string>, rest: seq<string>)

  /** What runCommands collects for `names` before it runs anything. */
  function Assemble(file: File, names: seq<string>, answers: seq<string>): (a: Assembly)
    decreases |names|
    ensures |a.commands| + |a.skipped| == |names|
  {
    if names == [] then Assembly([], [], answers)
    else match GetCommand(file, names[0])
      case Found(rule) =>
        var (processed, after) := ProcessBottles(rule, answers);
        var t := Assemble(file, names[1..], after);
        Assembly([processed] + t.commands, t.skipped, t.rest)
      case _ =>
        var t := Assemble(file, names[1..], answers);
        Assembly(t.commands, [names[0]] + t.skipped, t.rest)
  }

  /** The command line that is run: the commands joined with " && ", or nothing when there are none. */
  function FullCommand(commands: seq<string>): (full: Option<string>)
    ensures full.None? <==> commands == []
  {
    if commands == [] then None else Some(Join(commands, " && "))
  }

  /**
   * Part way through runCommands: what has been collected so far, followed
   * by what the names still to do give with the answers still unread, is
   * what the whole request gives.
   */
  predicate Collected(file: File, todo: seq<string>, rest: seq<string>,
                      commands: seq<string>, skipped: seq<string>, whole: Assembly)
  {
    var t := Assemble(file, todo, rest);
    commands + t.commands == whole.commands && skipped + t.skipped == whole.skipped && t.rest == whole.rest
  }

  /** A name that resolves: its processed command is collected and its answers are read. */
  lemma CollectedFound(file: File, todo: seq<string>, rest: seq<string>,
                       commands: seq<string>, skipped: seq<string>, whole: Assembly,
                       processed: string, after: seq<string>)
    requires todo != [] && Collected(file, todo, rest, commands, skipped, whole)
    requires GetCommand(file, todo[0]).Found?
    requires ProcessBottles(GetCommand(file, todo[0]).text, rest) == (processed, after)
    ensures Collected(file, todo[1..], after, commands + [processed], skipped, whole)
  {
    var u := Assemble(file, todo[1..], after);
    assert commands + [processed] + u.commands == commands + ([processed] + u.commands);
  }

  /** A name that does not resolve: it is skipped and no answer is read. */
  lemma CollectedSkipped(file: File, todo: seq<string>, rest: seq<string>,
                         commands: seq<string>, skipped: seq<string>, whole: Assembly)
    requires todo != [] && Collected(file, todo, rest, commands, skipped, whole)
    requires !GetCommand(file, todo[0]).Found?
    ensures Collected(file, todo[1..], rest, commands, skipped + [todo[0]], whole)
  {
    var u := Assemble(file, todo[1..], rest);
    assert skipped + [todo[0]] + u.skipped == skipped + ([todo[0]] + u.skipped);
  }

  /** With no names left, everything has been collected. */
  lemma CollectedAll(file: File, rest: seq<string>, commands: seq<string>, skipped: seq<string>, whole: Assembly)
    requires Collected(file, [], rest, commands, skipped, whole)
    ensures whole == Assembly(commands, skipped, rest)
  {
    assert commands + [] == commands && skipped + [] == skipped;
  }

  /** runCommands: resolves, fills in and joins the commands for `names`, in order. */
  method RunCommands(file: File, names: seq<string>, answers: seq<string>)
    returns (full: Option<string>, skipped: seq<string>, rest: seq<string>)
    ensures var a := Assemble(file, names, answers);
      full == FullCommand(a.commands) && skipped == a.skipped && rest == a.rest
  {
    ghost var whole := Assemble(file, names, answers);
    var commandList: seq<string> := [];
    skipped := [];
    rest := answers;
    var todo := names;
    assert [] + whole.commands == whole.commands && [] + whole.skipped == whole.skipped;
    while todo != []
      invariant Collected(file, todo, rest, commandList, skipped, whole)
      decreases |todo|
    {
      var lookup := GetCommand(file, todo[0]);
      if lookup.Found? {
        var processed, after := ProcessBottles(lookup.text, rest).0, ProcessBottles(lookup.text, rest).1;
        CollectedFound(file, todo, rest, commandList, skipped, whole, processed, after);
        commandList := commandList + [processed];
        rest := after;
      } else {
        CollectedSkipped(file, todo, rest, commandList, skipped, whole);
        skipped := skipped + [todo[0]];
      }
      todo := todo[1..];
    }
    CollectedAll(file, rest, commandList, skipped, whole);
    if |commandList| == 0 {
      full := None;
    } else {
      full := Some(Join(commandList, " && "));
    }
  }

  /** The command getCommand finds for `name`, as a sequence of zero or one commands. */
  function ResolvedOne(file: File, name: string): (commands: seq<string>)
    ensures |commands| <= 1
  {
    match GetCommand(file, name)
    case Found(c) => [c]
    case _ => []
  }

  /** The commands getCommand finds for `names`, in request order, before placeholders are filled. */
  function Resolved(file: File, names: seq<string>): (commands: seq<string>)
    decreases |names|
    ensures |commands| <= |names|
  {
    if names == [] then [] else ResolvedOne(file, names[0]) + Resolved(file, names[1..])
  }

  /** Resolving a longer request resolves its parts one after the other. */
  lemma {:induction false} ResolvedAppend(file: File, a: seq<string>, b: seq<string>)
    ensures Resolved(file, a + b) == Resolved(file, a) + Resolved(file, b)
  {
    if a == [] {
      assert a + b == b;
    } else {
      assert (a + b)[1..] == a[1..] + b;
      ResolvedAppend(file, a[1..], b);
      assert (a + b)[0] == a[0];
    }
  }

  /** The number of placeholders in the resolved commands, all taken together. */
  function Placeholders(file: File, names: seq<string>): nat
    decreases |names|
  {
    if names == [] then 0
    else
      var here := match GetCommand(file, names[0]) case Found(c) => BottleCount(Segments(c)) case _ => 0;
      here + Placeholders(file, names[1..])
  }

  /** A name is skipped exactly when it is requested and no rule defines it. */
  lemma {:induction false} SkippedIffUndefined(file: File, names: seq<string>, answers: seq<string>, name: string)
    ensures name in Assemble(file, names, answers).skipped <==> name in names && !RuleExists(file, name)
  {
    if names != [] {
      LookupAgrees(file, names[0]);
      LookupAgrees(file, name);
      match GetCommand(file, names[0])
      case Found(rule) =>
        SkippedIffUndefined(file, names[1..], ProcessBottles(rule, answers).1, name);
      case _ =>
        SkippedIffUndefined(file, names[1..], answers, name);
      assert names == [names[0]] + names[1..];
    }
  }

  /** Nothing is run exactly when no requested name is defined in the store. */
  lemma {:induction false} NothingRunsIffNoneResolve(file: File, names: seq<string>, answers: seq<string>)
    ensures FullCommand(Assemble(file, names, answers).commands).None? <==>
      forall k :: 0 <= k < |names| ==> !RuleExists(file, names[k])
  {
    if names != [] {
      LookupAgrees(file, names[0]);
      match GetCommand(file, names[0])
      case Found(rule) =>
      case _ =>
        NothingRunsIffNoneResolve(file, names[1..], answers);
        assert forall k :: 1 <= k < |names| ==> names[k] == names[1..][k - 1];
    }
  }

  /** Across all commands, exactly one answer is read per placeholder, in order. */
  lemma {:induction false} AnswersPerPlaceholder(file: File, names: seq<string>, answers: seq<string>)
    ensures Assemble(file, names, answers).rest == Drop(answers, Placeholders(file, names))
  {
    if names != [] {
      match GetCommand(file, names[0])
      case Found(rule) =>
        var n := BottleCount(Segments(rule));
        OneAnswerPerPlaceholder(rule, answers);
        AnswersPerPlaceholder(file, names[1..], Drop(answers, n));
        DropTwice(answers, n, Placeholders(file, names[1..]));
      case _ =>
        AnswersPerPlaceholder(file, names[1..], answers);
    }
  }

  /** With no placeholder in any resolved command, the commands run are the rules as stored, in request order, and no answer is read. */
  lemma {:induction false} PlainCommands(file: File, names: seq<string>, answers: seq<string>)
    requires forall k :: 0 <= k < |names| && GetCommand(file, names[k]).Found? ==> !HasPlaceholder(GetCommand(file, names[k]).text)
    ensures Assemble(file, names, answers).commands == Resolved(file, names)
    ensures Assemble(file, names, answers).rest == answers
  {
    if names != [] {
      assert forall k :: 1 <= k < |names| ==> names[k] == names[1..][k - 1];
      match GetCommand(file, names[0])
      case Found(rule) =>
        NoPlaceholderUnchanged(rule, answers);
        PlainCommands(file, names[1..], answers);
      case _ =>
        PlainCommands(file, names[1..], answers);
    }
  }

  /** A single resolved name runs its own processed command, with nothing joined to it. */
  lemma SingleCommand(file: File, name: string, answers: seq<string>)
    requires RuleExists(file, name)
    ensures FullCommand(Assemble(file, [name], answers).commands) ==
      Some(ProcessBottles(GetCommand(file, name).text, answers).0)
  {
    LookupAgrees(file, name);
    assert [name][1..] == [];
  }
}

/**
 * exportRules without its destination prompt and file writing: the user
 * picks rules (a blank answer picks every rule getAllRules lists; otherwise
 * the words of the answer, asked again until every word names an existing
 * rule), optionally adds a comment, and the content is one "#comment" line
 * followed by one `b:name = command:b` line per picked rule that getCommand
 * resolves.
 */
module Export {
  import opened Wrappers
  import opened Text
  import opened Prompt
  import opened Lines
  import opened RuleStore
  import opened Extract

  /** The (name, command) pairs exported for `names`: those getCommand resolves, in order. */
  function Exported(file: File, names: seq<string>): (pairs: seq<(string, string)>)
    decreases |names|
    ensures |pairs| <= |names|
  {
    if names == [] then []
    else
      (match GetCommand(file, names[0])
       case Found(command) => [(names[0], command)]
       case _ => []) + Exported(file, names[1..])
  }

  /** One export line per pair, in order. */
  function ExportLines(pairs: seq<(string, string)>): (lines: seq<string>)
    decreases |pairs|
    ensures |lines| == |pairs|
  {
    if pairs == [] then [] else [ExportLine(pairs[0].0, pairs[0].1)] + ExportLines(pairs[1..])
  }

  lemma {:induction false} ExportLinesAppend(a: seq<(string, string)>, b: seq<(string, string)>)
    ensures ExportLines(a + b) == ExportLines(a) + ExportLines(b)
  {
    if a == [] {
      assert a + b == b;
    } else {
      assert (a + b)[0] == a[0];
      assert (a + b)[1..] == a[1..] + b;
      ExportLinesAppend(a[1..], b);
    }
  }

  /** The comment line, present only when a comment was given. */
  function Header(comment: string): seq<string> {
    if comment == "" then [] else ["#" + comment]
  }

  /** The lines exportRules writes for the picked names and the comment. */
  function ExportContent(file: File, names: seq<string>, comment: string): seq<string> {
    Header(comment) + ExportLines(Exported(file, names))
  }

  /** Every word names an existing rule. */
  predicate AllExist(file: File, words: seq<string>) {
    forall k :: 0 <= k < |words| ==> RuleExists(file, words[k])
  }

  /** The rules the user ends up picking, and the answers left after the picking prompt. */
  function Select(file: File, answers: seq<string>): (r: (seq<string>, seq<string>))
    decreases |answers|
    ensures r.0 == AllRuleNames(file) || AllExist(file, r.0)
    ensures |r.1| < |answers| || r.1 == []
  {
    var text := Answer(answers);
    if text == "" then (AllRuleNames(file), Remaining(answers))
    else
      var words := Fields(text);
      if AllExist(file, words) then (words, Remaining(answers))
      else Select(file, Remaining(answers))
  }

  /**
   * exportRules up to its destination prompt: the content to write, or None
   * when nothing was picked; after the picking, one more answer is read as
   * the comment.
   */
  function ExportPlan(file: File, answers: seq<string>): (r: (Option<seq<string>>, seq<string>))
    ensures r.0.None? <==> Select(file, answers).0 == []
    ensures r.0.None? ==> r.1 == Select(file, answers).1
    ensures r.0.Some? ==> r.1 == Remaining(Select(file, answers).1)
    ensures r.0.Some? ==>
      r.0.value == Header(Answer(Select(file, answers).1)) + ExportLines(Exported(file, Select(file, answers).0))
  {
    var (names, rest) := Select(file, answers);
    if names == [] then (None, rest)
    else (Some(ExportContent(file, names, Answer(rest))), Remaining(rest))
  }

  /** Sorts the words of an answer into existing rules and unknown names. */
  method CheckWords(file: File, words: seq<string>) returns (chosen: seq<string>, invalid: seq<string>)
    ensures invalid == [] <==> AllExist(file, words)
    ensures invalid == [] ==> chosen == words
  {
    chosen, invalid := [], [];
    var j := 0;
    while j < |words|
      invariant 0 <= j <= |words|
      invariant invalid == [] ==> chosen == words[..j]
      invariant invalid == [] <==> AllExist(file, words[..j])
    {
      assert words[..j + 1] == words[..j] + [words[j]];
      if RuleExists(file, words[j]) {
        chosen := chosen + [words[j]];
      } else {
        invalid := invalid + [words[j]];
      }
      j := j + 1;
    }
    assert words[..j] == words;
  }

  /** The picking loop: asks until the answer is blank or names only existing rules. */
  method SelectRules(file: File, answers: seq<string>) returns (selected: seq<string>, rest: seq<string>)
    ensures (selected, rest) == Select(file, answers)
  {
    rest := answers;
    selected := [];
    while true
      invariant Select(file, rest) == Select(file, answers)
      decreases |rest|
    {
      ghost var before := rest;
      var text := Answer(rest);
      rest := Remaining(rest);
      if text == "" {
        selected := GetAllRules(file);
        return;
      }
      var words := Fields(text);
      var chosen, invalid := CheckWords(file, words);
      if invalid == [] {
        selected := chosen;
        return;
      }
      assert Select(file, before) == Select(file, rest);
    }
  }

  /** The export lines for one name: one line when getCommand resolves it, none otherwise. */
  function ExportItem(file: File, name: string): (lines: seq<string>)
    ensures |lines| <= 1
  {
    match GetCommand(file, name)
    case Found(command) => [ExportLine(name, command)]
    case _ => []
  }

  /** Part way through the export loop: the lines so far, then those for the names left, are the whole content. */
  predicate Exporting(file: File, todo: seq<string>, content: seq<string>, whole: seq<string>) {
    content + ExportLines(Exported(file, todo)) == whole
  }

  /** One step of the export loop: the lines for the next name, then those for the rest. */
  lemma ExportStep(file: File, todo: seq<string>, content: seq<string>, whole: seq<string>)
    requires todo != [] && Exporting(file, todo, content, whole)
    ensures Exporting(file, todo[1..], content + ExportItem(file, todo[0]), whole)
  {
    var item := match GetCommand(file, todo[0]) case Found(c) => [(todo[0], c)] case _ => [];
    var tail := Exported(file, todo[1..]);
    assert Exported(file, todo) == item + tail;
    ExportLinesAppend(item, tail);
    assert ExportLines(item) == ExportItem(file, todo[0]);
    ConcatAssoc(content, ExportItem(file, todo[0]), ExportLines(tail));
  }

  /** With no names left, the content is complete. */
  lemma ExportDone(file: File, content: seq<string>, whole: seq<string>)
    requires Exporting(file, [], content, whole)
    ensures content == whole
  {
    assert content + [] == content;
  }

  /** Builds the export content: the comment line, then one line per name getCommand resolves. */
  method BuildExport(file: File, names: seq<string>, comment: string) returns (content: seq<string>)
    ensures content == ExportContent(file, names, comment)
  {
    ghost var whole := ExportContent(file, names, comment);
    content := [];
    if comment != "" {
      content := content + ["#" + comment];
    }
    assert content == Header(comment);
    var todo := names;
    while todo != []
      invariant Exporting(file, todo, content, whole)
      decreases |todo|
    {
      ExportStep(file, todo, content, whole);
      var lookup := GetCommand(file, todo[0]);
      if lookup.Found? {
        content := content + [ExportLine(todo[0], lookup.text)];
      } else {
        assert content + ExportItem(file, todo[0]) == content;
      }
      todo := todo[1..];
    }
    ExportDone(file, content, whole);
  }

  /** exportRules up to its destination prompt. */
  method ExportRules(file: File, answers: seq<string>) returns (content: Option<seq<string>>, rest: seq<string>)
    ensures (content, rest) == ExportPlan(file, answers)
  {
    var names;
    names, rest := SelectRules(file, answers);
    if names == [] {
      return None, rest;
    }
    var comment := Answer(rest);
    rest := Remaining(rest);
    var lines := BuildExport(file, names, comment);
    content := Some(lines);
  }

  /** When every picked name exists, each is exported with the command getCommand returns, in order. */
  lemma {:induction false} ExportedAllFound(file: File, names: seq<string>)
    requires AllExist(file, names)
    ensures |Exported(file, names)| == |names|
    ensures forall k :: 0 <= k < |names| ==>
      GetCommand(file, names[k]).Found? && Exported(file, names)[k] == (names[k], GetCommand(file, names[k]).text)
  {
    if names != [] {
      var tail := names[1..];
      assert AllExist(file, tail) by {
        forall k | 0 <= k < |tail| ensures RuleExists(file, tail[k]) {
          assert tail[k] == names[k + 1];
        }
      }
      ExportedAllFound(file, tail);
      assert RuleExists(file, names[0]);
      LookupAgrees(file, names[0]);
      var head := [(names[0], GetCommand(file, names[0]).text)];
      var rest := Exported(file, tail);
      assert Exported(file, names) == head + rest;
      forall k | 0 <= k < |names|
        ensures GetCommand(file, names[k]).Found? && (head + rest)[k] == (names[k], GetCommand(file, names[k]).text)
      {
        if k > 0 {
          assert names[k] == tail[k - 1];
          assert (head + rest)[k] == rest[k - 1];
        }
      }
    }
  }

  /**
   * Exactly the picked names getCommand resolves are exported, each with the
   * command it resolves to; this covers the export-all path, whose listed
   * names need not resolve.
   */
  lemma {:induction false} ExportedResolved(file: File, names: seq<string>)
    ensures forall p :: p in Exported(file, names) ==> p.0 in names && GetCommand(file, p.0) == Found(p.1)
    ensures forall n, c :: n in names && GetCommand(file, n) == Found(c) ==> (n, c) in Exported(file, names)
  {
    if names != [] {
      ExportedResolved(file, names[1..]);
    }
  }

  /** Every exported command is trimmed, as getCommand returns it. */
  lemma {:induction false} ExportedTrimmed(file: File, names: seq<string>)
    ensures forall k :: 0 <= k < |Exported(file, names)| ==> Trimmed(Exported(file, names)[k].1)
  {
    if names != [] {
      ExportedTrimmed(file, names[1..]);
    }
  }

  /** A pair that an export line carries through extraction unchanged. */
  predicate Recoverable(pair: (string, string), unescape: string -> string) {
    Groups(pair.0, pair.1) && Trimmed(pair.0) && Trimmed(pair.1) && unescape(pair.1) == pair.1
  }

  /** The rules "name = command" for the pairs, in order. */
  function RuleLines(pairs: seq<(string, string)>): (rules: seq<string>)
    ensures |rules| == |pairs|
  {
    seq(|pairs|, k requires 0 <= k < |pairs| => RuleLine(pairs[k].0, pairs[k].1))
  }

  /** Each export line, followed by a newline, is matched in turn. */
  lemma {:induction false} MatchesOfExport(pairs: seq<(string, string)>)
    requires forall k :: 0 <= k < |pairs| ==> Groups(pairs[k].0, pairs[k].1)
    ensures var ms := Matches(JoinLines(ExportLines(pairs)));
      |ms| == |pairs| &&
      forall k :: 0 <= k < |pairs| ==> ms[k].name == pairs[k].0 && ms[k].command == pairs[k].1
  {
    if pairs != [] {
      var (n, c) := pairs[0];
      var tail := pairs[1..];
      var rest := JoinLines(ExportLines(tail));
      assert ExportLines(pairs) == [ExportLine(n, c)] + ExportLines(tail);
      assert JoinLines(ExportLines(pairs)) == ExportLine(n, c) + ("\n" + rest);
      MatchesExportLine(n, c, "\n" + rest);
      NoB("\n");
      SkipPlain("\n", rest);
      forall k | 0 <= k < |tail| ensures Groups(tail[k].0, tail[k].1) {
        assert tail[k] == pairs[k + 1];
      }
      MatchesOfExport(tail);
      var ms := Matches(JoinLines(ExportLines(pairs)));
      var rs := Matches(rest);
      assert ms == [RuleMatch(n, c, |ExportLine(n, c)|)] + rs;
      forall k | 0 <= k < |pairs| ensures ms[k].name == pairs[k].0 && ms[k].command == pairs[k].1 {
        if k > 0 {
          assert ms[k] == rs[k - 1] && pairs[k] == tail[k - 1];
        }
      }
    }
  }

  /** A comment line without "b:" adds no match in front of the rules. */
  lemma CommentSkipped(comment: string, body: string)
    requires !Contains("#" + comment, "b:")
    ensures Matches(("#" + comment + "\n") + body) == Matches(body)
  {
    var c := "#" + comment;
    var u := c + "\n";
    forall k: nat | k <= |u| ensures !OccursAt(u, "b:", k) {
      if k + 2 <= |c| {
        assert u[k..k + 2] == c[k..k + 2];
        assert !OccursAt(c, "b:", k);
      } else if k + 2 == |u| {
        assert u[k + 1] == '\n';
      }
    }
    SkipPlain(u, body);
  }

  /** Matches that carry a recoverable pair's name and command format back to its rule line. */
  lemma FormatEach(ms: seq<RuleMatch>, pairs: seq<(string, string)>, unescape: string -> string)
    requires |ms| == |pairs|
    requires forall k :: 0 <= k < |pairs| ==> Recoverable(pairs[k], unescape)
    requires forall k :: 0 <= k < |pairs| ==> ms[k].name == pairs[k].0 && ms[k].command == pairs[k].1
    ensures forall k :: 0 <= k < |ms| ==> Format(ms[k], unescape) == RuleLines(pairs)[k]
  {
    forall k | 0 <= k < |ms| ensures Format(ms[k], unescape) == RuleLines(pairs)[k] {
      assert Recoverable(pairs[k], unescape);
    }
  }

  /** The matches of the export lines become exactly their rules. */
  lemma FormatExported(pairs: seq<(string, string)>, unescape: string -> string)
    requires forall k :: 0 <= k < |pairs| ==> Recoverable(pairs[k], unescape)
    ensures ExtractedRules(JoinLines(ExportLines(pairs)), unescape) == RuleLines(pairs)
  {
    forall k | 0 <= k < |pairs| ensures Groups(pairs[k].0, pairs[k].1) {
      assert Recoverable(pairs[k], unescape);
    }
    MatchesOfExport(pairs);
    var ms := Matches(JoinLines(ExportLines(pairs)));
    FormatEach(ms, pairs, unescape);
  }

  /**
   * Exported content read back as one text: extractRules recovers every
   * exported rule as "name = command", in order, and the comment line
   * contributes nothing when it holds no "b:".
   */
  lemma ExportRoundTrip(pairs: seq<(string, string)>, comment: string, unescape: string -> string)
    requires forall k :: 0 <= k < |pairs| ==> Recoverable(pairs[k], unescape)
    requires !Contains("#" + comment, "b:")
    ensures ExtractedRules(JoinLines(Header(comment) + ExportLines(pairs)), unescape) == RuleLines(pairs)
  {
    var body := JoinLines(ExportLines(pairs));
    FormatExported(pairs, unescape);
    if comment != "" {
      var all := Header(comment) + ExportLines(pairs);
      assert all[0] == "#" + comment && all[1..] == ExportLines(pairs);
      assert JoinLines(all) == ("#" + comment + "\n") + body;
      CommentSkipped(comment, body);
    } else {
      assert Header(comment) + ExportLines(pairs) == ExportLines(pairs);
    }
  }

  /** An export line of a name and command without newlines is a single line. */
  lemma ExportLineSingle(name: string, command: string)
    requires '\n' !in name && '\n' !in command
    ensures SingleLine(ExportLine(name, command))
  {
    var line := ExportLine(name, command);
    assert line == "b:" + name + " = " + command + ":b";
    assert line[|line| - 1] == 'b';
  }

  /** Export lines of names and commands without newlines are single lines. */
  lemma {:induction false} ExportLinesAllSingle(pairs: seq<(string, string)>)
    requires forall k :: 0 <= k < |pairs| ==> '\n' !in pairs[k].0 && '\n' !in pairs[k].1
    ensures AllSingle(ExportLines(pairs))
  {
    if pairs != [] {
      ExportLineSingle(pairs[0].0, pairs[0].1);
      ExportLinesAllSingle(pairs[1..]);
      AllSingleAppend([ExportLine(pairs[0].0, pairs[0].1)], ExportLines(pairs[1..]));
    }
  }

  /** Every line of the content is a single line, so a file holding it reads back as the same lines. */
  lemma ExportLinesSingle(pairs: seq<(string, string)>, comment: string)
    requires forall k :: 0 <= k < |pairs| ==> '\n' !in pairs[k].0 && '\n' !in pairs[k].1
    requires '\n' !in comment && !EndsWithCR("#" + comment)
    ensures AllSingle(Header(comment) + ExportLines(pairs))
  {
    ExportLinesAllSingle(pairs);
    if comment != "" {
      var h := "#" + comment;
      assert '\n' !in h by {
        forall k | 0 <= k < |h| ensures h[k] != '\n' {
          if k > 0 { assert h[k] == comment[k - 1]; }
        }
      }
      assert Header(comment) == [h];
      assert AllSingle([h]) by { assert SingleLine([h][0]); }
    }
    AllSingleAppend(Header(comment), ExportLines(pairs));
  }
}

/**
 * extractRules: every leftmost, non-overlapping match of the pattern
 * `b:([^=]+) = (.*?):b` in a text, formatted as "name = command" with both
 * groups trimmed and the command passed through html.UnescapeString.
 *
 * The pattern is written out as a scanner. At a candidate position the text
 * must start with "b:"; `[^=]+` (which crosses newlines) runs to the first
 * '=' after that, which must be preceded and followed by a space and leave a
 * non-empty first group; the lazy `.*?` then stops at the first ":b" after
 * " = ", and fails when a newline comes first, since `.` does not match one.
 *
 * html.UnescapeString is the parameter `unescape`.
 */
module Extract {
  import opened Wrappers
  import opened Text
  import opened RuleStore

  /** One match: the two groups, and the length of the matched text. */
  datatype RuleMatch = RuleMatch(name: string, command: string, end: nat)

  /** `fmt.Sprintf("b:%s = %s:b", name, command)`: an exported rule, and the text a match covers. */
  function ExportLine(name: string, command: string): (line: string)
    ensures |line| == |name| + |command| + 7
  {
    "b:" + name + " = " + command + ":b"
  }

  /** Groups the pattern can produce: a non-empty first group without '=', a second without newline or ":b". */
  predicate Groups(name: string, command: string) {
    |name| > 0 && '=' !in name && '\n' !in command && !Contains(command, ":b")
  }

  /** The text between "b:" and the first '=' after it holds no '='. */
  lemma NameGroup(s: string, e: nat)
    requires IndexOfChar(s, '=', 2) == Some(e) && e >= 3
    ensures '=' !in s[2..e - 1]
  {
    var name := s[2..e - 1];
    forall k | 0 <= k < |name| ensures name[k] != '=' {
      assert name[k] == s[2 + k];
    }
  }

  /** The text between `from` and the first ":b" after it holds no ":b". */
  lemma CommandGroup(s: string, from: nat, m: nat)
    requires IndexFrom(s, ":b", from) == Some(m)
    ensures !Contains(s[from..m], ":b")
  {
    var command := s[from..m];
    assert forall j: nat :: from <= j < m ==> !OccursAt(s, ":b", j);
    forall k: nat | k <= |command| ensures !OccursAt(command, ":b", k) {
      if k + 2 <= |command| {
        var j: nat := from + k;
        assert !OccursAt(s, ":b", j);
        assert command[k..k + 2] == s[j..j + 2];
      }
    }
  }

  /** A text laid out as "b:", name, " = ", command, ":b" starts with that export line. */
  lemma ExportLayout(s: string, e: nat, m: nat)
    requires HasPrefix(s, "b:") && 3 <= e && e + 2 <= m && m + 2 <= |s|
    requires s[e - 1] == ' ' && s[e] == '=' && s[e + 1] == ' ' && s[m..m + 2] == ":b"
    ensures HasPrefix(s, ExportLine(s[2..e - 1], s[e + 2..m]))
  {
    assert s[..m + 2] == s[..2] + s[2..e - 1] + s[e - 1..e + 2] + s[e + 2..m] + s[m..m + 2];
  }

  /** The match that starts `s`, if one does. */
  function RuleMatchAt(s: string): (r: Option<RuleMatch>)
    ensures r.Some? ==>
      Groups(r.value.name, r.value.command) &&
      r.value.end == |ExportLine(r.value.name, r.value.command)| &&
      HasPrefix(s, ExportLine(r.value.name, r.value.command))
  {
    if !HasPrefix(s, "b:") then None
    else match IndexOfChar(s, '=', 2)
      case None => None
      case Some(e) =>
        if e >= 4 && s[e - 1] == ' ' && e + 1 < |s| && s[e + 1] == ' ' then
          match IndexFrom(s, ":b", e + 2)
          case None => None
          case Some(m) =>
            if '\n' in s[e + 2..m] then None
            else
              NameGroup(s, e);
              CommandGroup(s, e + 2, m);
              ExportLayout(s, e, m);
              Some(RuleMatch(s[2..e - 1], s[e + 2..m], m + 2))
        else None
  }

  /** In a text that starts with an exported rule, the first '=' after "b:" is the one after the name. */
  lemma EqualsAfterName(s: string, name: string, command: string)
    requires '=' !in name && HasPrefix(s, ExportLine(name, command))
    ensures IndexOfChar(s, '=', 2) == Some(|name| + 3)
  {
    var line := ExportLine(name, command);
    assert s[..|line|] == line;
    forall k | 2 <= k < |name| + 3 ensures s[k] != '=' {
      assert s[k] == line[k];
      if k < |name| + 2 { assert line[k] == name[k - 2]; }
    }
    assert s[|name| + 3] == line[|name| + 3] == '=';
  }

  /** In a text that starts with an exported rule whose command holds no ":b", the first ":b" after " = " closes it. */
  lemma CloseAfterCommand(s: string, name: string, command: string)
    requires !Contains(command, ":b") && HasPrefix(s, ExportLine(name, command))
    ensures IndexFrom(s, ":b", |name| + 5) == Some(|name| + 5 + |command|)
  {
    var line := ExportLine(name, command);
    var e, m := |name| + 3, |name| + 5 + |command|;
    assert s[..|line|] == line;
    assert line[e + 2..m] == command;
    assert OccursAt(s, ":b", m) by {
      assert s[m..m + 2] == line[m..m + 2] == ":b";
    }
    forall k: nat | e + 2 <= k < m ensures !OccursAt(s, ":b", k) {
      if k + 2 <= m {
        assert s[k..k + 2] == command[k - e - 2..k - e];
        assert !OccursAt(command, ":b", k - e - 2);
      } else {
        assert s[k + 1] == line[m] == ':';
      }
    }
  }

  /** Where the pieces of an exported rule sit in a text that starts with it. */
  lemma ExportLineParts(s: string, name: string, command: string)
    requires HasPrefix(s, ExportLine(name, command))
    ensures HasPrefix(s, "b:") && |name| + 5 + |command| + 2 <= |s|
    ensures s[|name| + 2] == ' ' && s[|name| + 3] == '=' && s[|name| + 4] == ' '
    ensures s[2..|name| + 2] == name && s[|name| + 5..|name| + 5 + |command|] == command
  {
    var line := ExportLine(name, command);
    var n, c := |name|, |command|;
    assert line == "b:" + name + (" = " + command + ":b");
    MiddleSlice("b:", name, " = " + command + ":b");
    assert line == ("b:" + name + " = ") + command + ":b";
    MiddleSlice("b:" + name + " = ", command, ":b");
    PrefixSlice(s, line, 0, 2);
    PrefixSlice(s, line, 2, n + 2);
    PrefixSlice(s, line, n + 5, n + 5 + c);
    PrefixSlice(s, line, n + 2, n + 3);
    PrefixSlice(s, line, n + 4, n + 5);
    PrefixSlice(s, line, n + 3, n + 4);
    assert line[..2] == "b:";
    assert s[n + 2] == s[n + 2..n + 3][0] && line[n + 2] == line[n + 2..n + 3][0];
    assert s[n + 4] == s[n + 4..n + 5][0] && line[n + 4] == line[n + 4..n + 5][0];
    assert s[n + 3] == s[n + 3..n + 4][0] && line[n + 3] == line[n + 3..n + 4][0];
  }

  /** A text that starts with an exported rule whose groups the pattern can produce matches exactly that rule. */
  lemma RuleMatchAtComplete(s: string, name: string, command: string)
    requires Groups(name, command) && HasPrefix(s, ExportLine(name, command))
    ensures RuleMatchAt(s) == Some(RuleMatch(name, command, |ExportLine(name, command)|))
  {
    ExportLineParts(s, name, command);
    EqualsAfterName(s, name, command);
    CloseAfterCommand(s, name, command);
  }

  /** All leftmost, non-overlapping matches, in text order (regexp.FindAllStringSubmatch). */
  function Matches(s: string): (ms: seq<RuleMatch>)
    decreases |s|
    ensures forall k :: 0 <= k < |ms| ==> Groups(ms[k].name, ms[k].command)
  {
    if s == [] then []
    else match RuleMatchAt(s)
      case Some(m) => [m] + Matches(s[m.end..])
      case None => Matches(s[1..])
  }

  /** The rule a match is formatted as. */
  function Format(m: RuleMatch, unescape: string -> string): string {
    RuleLine(TrimSpace(m.name), unescape(TrimSpace(m.command)))
  }

  /** The rules extractRules returns for `text`. */
  function ExtractedRules(text: string, unescape: string -> string): seq<string> {
    var ms := Matches(text);
    seq(|ms|, k requires 0 <= k < |ms| => Format(ms[k], unescape))
  }

  /** The rules formatted so far are those of the first matches, in order. */
  predicate FormattedUpTo(rules: seq<string>, ms: seq<RuleMatch>, unescape: string -> string) {
    |rules| <= |ms| && forall k :: 0 <= k < |rules| ==> rules[k] == Format(ms[k], unescape)
  }

  /** Formatting the next match extends the rules formatted so far. */
  lemma FormattedNext(rules: seq<string>, ms: seq<RuleMatch>, unescape: string -> string)
    requires FormattedUpTo(rules, ms, unescape) && |rules| < |ms|
    ensures FormattedUpTo(rules + [Format(ms[|rules|], unescape)], ms, unescape)
  {
  }

  /** Once every match is formatted, the rules are those extractRules returns. */
  lemma FormattedAll(rules: seq<string>, text: string, unescape: string -> string)
    requires FormattedUpTo(rules, Matches(text), unescape) && |rules| == |Matches(text)|
    ensures rules == ExtractedRules(text, unescape)
  {
  }

  /** extractRules: formats the matches one by one, in the order they occur. */
  method ExtractRules(text: string, unescape: string -> string) returns (rules: seq<string>)
    ensures rules == ExtractedRules(text, unescape)
  {
    var matches := Matches(text);
    rules := [];
    var i := 0;
    while i < |matches|
      invariant 0 <= i <= |matches| && |rules| == i
      invariant FormattedUpTo(rules, matches, unescape)
    {
      var ruleName := TrimSpace(matches[i].name);
      var ruleCommand := TrimSpace(matches[i].command);
      ruleCommand := unescape(ruleCommand);
      FormattedNext(rules, matches, unescape);
      rules := rules + [RuleLine(ruleName, ruleCommand)];
      i := i + 1;
    }
    FormattedAll(rules, text, unescape);
  }

  /** Every extracted rule reads "name = command" with a trimmed name free of '='. */
  lemma ExtractedWellFormed(text: string, unescape: string -> string, k: nat)
    requires k < |ExtractedRules(text, unescape)|
    ensures var m := Matches(text)[k];
      ExtractedRules(text, unescape)[k] == RuleLine(TrimSpace(m.name), unescape(TrimSpace(m.command))) &&
      '=' !in TrimSpace(m.name) && Trimmed(TrimSpace(m.name)) &&
      '\n' !in m.command && !Contains(m.command, ":b")
  {
  }

  /** Text without the letter 'b' holds no "b:". */
  lemma NoB(u: string)
    requires 'b' !in u
    ensures !Contains(u, "b:")
  {
    forall k: nat | k <= |u| ensures !OccursAt(u, "b:", k) {
      if k + 2 <= |u| {
        assert u[k..k + 2][0] == u[k];
      }
    }
  }

  /** A text that does not start with "b:" has the matches of its tail. */
  lemma MatchesSkipOne(s: string)
    requires s != [] && !HasPrefix(s, "b:")
    ensures Matches(s) == Matches(s[1..])
  {
    assert RuleMatchAt(s) == None;
  }

  /** Dropping the first character of a text finds no occurrence that was not there before. */
  lemma NotContainsTail(u: string, p: string)
    requires u != [] && !Contains(u, p)
    ensures !Contains(u[1..], p)
  {
    forall k: nat | k <= |u[1..]| ensures !OccursAt(u[1..], p, k) {
      if k + |p| <= |u[1..]| {
        assert u[1..][k..k + |p|] == u[k + 1..k + 1 + |p|];
        assert !OccursAt(u, p, k + 1);
      }
    }
  }

  /** Text that does not start "b:", nor meet the text after it in one, still does not once its first character is gone. */
  lemma PlainStep(u: string, rest: string)
    requires u != [] && !Contains(u, "b:")
    requires rest == [] || u[|u| - 1] != 'b' || rest[0] != ':'
    ensures !HasPrefix(u + rest, "b:") && (u + rest)[1..] == u[1..] + rest
    ensures !Contains(u[1..], "b:")
    ensures u[1..] == [] || rest == [] || u[1..][|u[1..]| - 1] != 'b' || rest[0] != ':'
  {
    var s := u + rest;
    if |u| >= 2 {
      assert s[..2] == u[0..2];
      assert !OccursAt(u, "b:", 0);
    } else if |s| >= 2 {
      assert s[..2] == [u[0], rest[0]];
    }
    NotContainsTail(u, "b:");
  }

  /**
   * Text in which no "b:" starts, even where it meets what follows,
   * contributes no match and does not disturb the matches after it.
   */
  lemma {:induction false} SkipPlain(u: string, rest: string)
    requires !Contains(u, "b:")
    requires u == [] || rest == [] || u[|u| - 1] != 'b' || rest[0] != ':'
    ensures Matches(u + rest) == Matches(rest)
  {
    if u == [] {
      assert u + rest == rest;
    } else {
      PlainStep(u, rest);
      MatchesSkipOne(u + rest);
      SkipPlain(u[1..], rest);
    }
  }

  /** An exported rule at the front of a text is the first match, and matching resumes right after it. */
  lemma MatchesExportLine(name: string, command: string, rest: string)
    requires Groups(name, command)
    ensures Matches(ExportLine(name, command) + rest) ==
      [RuleMatch(name, command, |ExportLine(name, command)|)] + Matches(rest)
  {
    var s := ExportLine(name, command) + rest;
    assert s[..|ExportLine(name, command)|] == ExportLine(name, command);
    RuleMatchAtComplete(s, name, command);
    assert s[|ExportLine(name, command)|..] == rest;
  }

  /**
   * An exported line is recovered as the rule "name = command" when the
   * name is trimmed and free of '=' and newlines, and the command is trimmed,
   * free of newlines and ":b", and holds nothing to unescape.
   */
  lemma ExportLineRecovered(name: string, command: string, unescape: string -> string)
    requires Groups(name, command) && Trimmed(name) && Trimmed(command) && unescape(command) == command
    ensures ExtractedRules(ExportLine(name, command), unescape) == [RuleLine(name, command)]
  {
    MatchesExportLine(name, command, "");
    assert ExportLine(name, command) + "" == ExportLine(name, command);
  }

  /**
   * A match needs its closing ":b" on the same line: where the text up to the
   * first ":b" after " = " holds a newline, no match starts.
   */
  lemma NewlineBreaksMatch(name: string, command: string, rest: string)
    requires |name| > 0 && '=' !in name && !Contains(command, ":b") && '\n' in command
    ensures RuleMatchAt(ExportLine(name, command) + rest) == None
  {
    var s := ExportLine(name, command) + rest;
    assert HasPrefix(s, ExportLine(name, command)) by {
      assert s[..|ExportLine(name, command)|] == ExportLine(name, command);
    }
    ExportLineParts(s, name, command);
    EqualsAfterName(s, name, command);
    CloseAfterCommand(s, name, command);
  }
}

/**
 * The configuration file as the program sees it: a text that bufio.Scanner
 * cuts into lines (readLines) and that writeLines rewrites, one unquoted line
 * per `fmt.Fprintln`.
 *
 * strconv.Unquote is not modelled; it is the parameter `unquote`, applied to
 * a line (the quotes the program wraps around it are implied) and returning
 * None when Go's Unquote reports an error.
 */
module Lines {
  import opened Wrappers
  import opened Text

  /** A file on disk: absent, or present with its text. */
  datatype File = Missing | Present(text: string)

  predicate EndsWithCR(l: string) {
    |l| > 0 && l[|l| - 1] == '\r'
  }

  /** bufio.ScanLines drops one carriage return before the newline. */
  function DropCR(l: string): (r: string)
    ensures !EndsWithCR(l) ==> r == l
  {
    if EndsWithCR(l) then l[..|l| - 1] else l
  }

  /**
   * The lines bufio.ScanLines yields for a whole text: the pieces between
   * newlines, each without a trailing carriage return, and no empty final
   * piece after a closing newline.
   */
  function SplitLines(text: string): (lines: seq<string>)
    decreases |text|
    ensures forall k :: 0 <= k < |lines| ==> '\n' !in lines[k]
  {
    if text == [] then []
    else match IndexOfChar(text, '\n', 0)
      case None => [DropCR(text)]
      case Some(i) => [DropCR(text[..i])] + SplitLines(text[i + 1..])
  }

  /** Every line followed by a newline: what `fmt.Fprintln` writes for each line in turn. */
  function JoinLines(lines: seq<string>): string
    decreases |lines|
  {
    if lines == [] then "" else lines[0] + "\n" + JoinLines(lines[1..])
  }

  /** A line that survives being written and read back unchanged. */
  predicate SingleLine(l: string) {
    '\n' !in l && !EndsWithCR(l)
  }

  /** Every line survives being written and read back. */
  predicate AllSingle(lines: seq<string>) {
    forall k :: 0 <= k < |lines| ==> SingleLine(lines[k])
  }

  lemma AllSingleAppend(a: seq<string>, b: seq<string>)
    requires AllSingle(a) && AllSingle(b)
    ensures AllSingle(a + b)
  {
    forall k | 0 <= k < |a + b| ensures SingleLine((a + b)[k]) {
      if k < |a| { assert (a + b)[k] == a[k]; } else { assert (a + b)[k] == b[k - |a|]; }
    }
  }

  /** Writing one-line texts and scanning them again gives the same lines. */
  lemma {:induction false} SplitJoinLines(lines: seq<string>)
    requires AllSingle(lines)
    ensures SplitLines(JoinLines(lines)) == lines
  {
    if lines != [] {
      var text := JoinLines(lines);
      var l := lines[0];
      assert text == l + "\n" + JoinLines(lines[1..]);
      assert text[|l|] == '\n';
      assert forall k :: 0 <= k < |l| ==> text[k] == l[k];
      assert IndexOfChar(text, '\n', 0) == Some(|l|);
      assert text[..|l|] == l;
      assert text[|l| + 1..] == JoinLines(lines[1..]);
      assert AllSingle(lines[1..]) by {
        forall k | 0 <= k < |lines[1..]| ensures SingleLine(lines[1..][k]) {
          assert lines[1..][k] == lines[k + 1];
        }
      }
      SplitJoinLines(lines[1..]);
      assert lines == [l] + lines[1..];
    }
  }

  /** Adding one line to the end adds its text and a newline to the end. */
  lemma {:induction false} JoinLinesSnoc(lines: seq<string>, l: string)
    ensures JoinLines(lines + [l]) == JoinLines(lines) + l + "\n"
  {
    if lines != [] {
      assert (lines + [l])[1..] == lines[1..] + [l];
      JoinLinesSnoc(lines[1..], l);
    }
  }

  /** readLines: the file's lines, or None when the file cannot be opened. */
  function ReadLines(file: File): (r: Option<seq<string>>)
    ensures r.None? <==> file.Missing?
  {
    match file
    case Missing => None
    case Present(text) => Some(SplitLines(text))
  }

  /** Every line unquoted, or None when one of them does not unquote. */
  function UnquoteAll(lines: seq<string>, unquote: string -> Option<string>): (r: Option<seq<string>>)
    decreases |lines|
    ensures r.Some? ==> |r.value| == |lines|
    ensures r.Some? ==> forall k :: 0 <= k < |lines| ==> unquote(lines[k]) == Some(r.value[k])
    ensures r.None? ==> exists k :: 0 <= k < |lines| && unquote(lines[k]).None?
  {
    if lines == [] then Some([])
    else match unquote(lines[0])
      case None => None
      case Some(u) =>
        match UnquoteAll(lines[1..], unquote)
        case None =>
          var k :| 0 <= k < |lines[1..]| && unquote(lines[1..][k]).None?;
          assert unquote(lines[k + 1]).None?;
          None
        case Some(us) => Some([u] + us)
  }

  /**
   * writeLines, with every line unquoted before the file is touched: the
   * rewritten file and true, or the file as it was and false when some line
   * does not unquote. (As written, the program truncates the file first; see
   * WriteLinesAsWritten.)
   */
  function WriteLines(file: File, lines: seq<string>, unquote: string -> Option<string>): (r: (File, bool))
    ensures r.1 <==> forall k :: 0 <= k < |lines| ==> unquote(lines[k]).Some?
    ensures r.1 ==> r.0 == Present(JoinLines(UnquoteAll(lines, unquote).value))
    ensures !r.1 ==> r.0 == file
  {
    match UnquoteAll(lines, unquote)
    case Some(out) => (Present(JoinLines(out)), true)
    case None => (file, false)
  }

  /**
   * writeLines as the program has it: os.Create truncates the file, then the
   * lines are unquoted and written one by one, and the first line that does
   * not unquote ends the call before the buffered writer is flushed.
   */
  function WriteLinesAsWritten(lines: seq<string>, unquote: string -> Option<string>): (r: (File, bool))
    ensures r.0.Present?
    ensures r.1 <==> forall k :: 0 <= k < |lines| ==> unquote(lines[k]).Some?
    ensures r.1 ==> r.0 == Present(JoinLines(UnquoteAll(lines, unquote).value))
    ensures !r.1 ==> r.0 == Present("")
  {
    match UnquoteAll(lines, unquote)
    case Some(out) => (Present(JoinLines(out)), true)
    case None => (Present(""), false)
  }

  /** When every line unquotes, the program's write and the corrected one write the same file. */
  lemma WriteAgrees(file: File, lines: seq<string>, unquote: string -> Option<string>)
    requires forall k :: 0 <= k < |lines| ==> unquote(lines[k]).Some?
    ensures WriteLinesAsWritten(lines, unquote) == WriteLines(file, lines, unquote)
    ensures WriteLines(file, lines, unquote).1
  {
  }

  /** A line Go's Unquote returns unchanged: no backslash, no double quote, no newline. */
  predicate Plain(l: string) {
    '\\' !in l && '"' !in l && '\n' !in l
  }

  /** `unquote` behaves like strconv.Unquote on lines with nothing to interpret. */
  ghost predicate PlainUnquote(unquote: string -> Option<string>) {
    forall l :: Plain(l) ==> unquote(l) == Some(l)
  }

  /** A line that writeLines keeps as it is and readLines gives back as it is. */
  predicate Storable(l: string) {
    Plain(l) && !EndsWithCR(l)
  }

  /** Plain one-line texts survive a write followed by a read. */
  lemma {:induction false} WriteReadBack(file: File, lines: seq<string>, unquote: string -> Option<string>)
    requires PlainUnquote(unquote)
    requires forall k :: 0 <= k < |lines| ==> Storable(lines[k])
    ensures WriteLines(file, lines, unquote) == (Present(JoinLines(lines)), true)
    ensures ReadLines(WriteLines(file, lines, unquote).0) == Some(lines)
  {
    forall k | 0 <= k < |lines| ensures unquote(lines[k]) == Some(lines[k]) {
      assert Plain(lines[k]);
    }
    var u := UnquoteAll(lines, unquote);
    assert u.Some?;
    assert u.value == lines;
    SplitJoinLines(lines);
  }

  /**
   * As written, a line that does not unquote empties the store, while the
   * corrected write leaves it as it was.
   */
  lemma FailedWriteEmptiesStore(file: File, lines: seq<string>, unquote: string -> Option<string>, k: nat)
    requires k < |lines| && unquote(lines[k]).None?
    ensures WriteLinesAsWritten(lines, unquote) == (Present(""), false)
    ensures ReadLines(WriteLinesAsWritten(lines, unquote).0) == Some([])
    ensures WriteLines(file, lines, unquote) == (file, false)
  {
    assert UnquoteAll(lines, unquote).None?;
  }
}

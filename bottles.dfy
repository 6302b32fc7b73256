/**
 * processBottles: every placeholder `b%('name')%b` in a command (the name
 * non-empty and free of single quotes) is replaced, left to right, by the
 * next value the user types; the values are inserted as they are and never
 * scanned again.
 *
 * The pattern `b%\('([^']+)'\)%b` is written out as a scanner: a placeholder
 * starts with "b%('", its name runs to the first single quote after that,
 * and "')%b" must follow there. Matching is leftmost and resumes after each
 * match, as regexp.ReplaceAllStringFunc does.
 */
module Bottles {
  import opened Wrappers
  import opened Text
  import opened Prompt

  /** A name the pattern's `[^']+` accepts. */
  predicate ValidName(name: string) {
    |name| > 0 && '\'' !in name
  }

  /** The placeholder text for `name`. */
  function Placeholder(name: string): (p: string)
    ensures |p| == |name| + 8
  {
    "b%('" + name + "')%b"
  }

  /** The name of the placeholder `s` starts with, if it starts with one. */
  function PlaceholderAt(s: string): (r: Option<string>)
    ensures r.Some? ==> ValidName(r.value) && HasPrefix(s, Placeholder(r.value))
  {
    if !HasPrefix(s, "b%('") then None
    else match IndexOfChar(s, '\'', 4)
      case None => None
      case Some(j) =>
        if j > 4 && HasPrefix(s[j..], "')%b") then
          var name := s[4..j];
          assert '\'' !in name by {
            forall k | 0 <= k < |name| ensures name[k] != '\'' {
              assert name[k] == s[4 + k];
            }
          }
          assert s[..j + 4] == s[..4] + name + s[j..][..4];
          Some(name)
        else None
  }

  /** A text that starts with a placeholder is recognised as that placeholder. */
  lemma PlaceholderAtComplete(s: string, name: string)
    requires ValidName(name) && HasPrefix(s, Placeholder(name))
    ensures PlaceholderAt(s) == Some(name)
  {
    var p := Placeholder(name);
    var n := |name|;
    assert p == "b%('" + name + "')%b";
    PrefixSlice(s, p, 0, 4);
    PrefixSlice(s, p, 4, 4 + n);
    PrefixSlice(s, p, 4 + n, 8 + n);
    MiddleSlice("b%('", name, "')%b");
    assert p[..4] == "b%('" && p[4 + n..8 + n] == "')%b";
    assert s[..4] == "b%('" && s[4..4 + n] == name;
    assert s[4 + n..][..4] == s[4 + n..8 + n] == "')%b";
    forall k | 4 <= k < 4 + n ensures s[k] != '\'' {
      assert s[k] == s[4..4 + n][k - 4] == name[k - 4];
    }
    assert s[4 + n] == s[4 + n..8 + n][0] == '\'';
    var j := IndexOfChar(s, '\'', 4);
    assert j == Some(4 + n);
  }

  /** One piece of a scanned command: a character kept as it is, or a placeholder. */
  datatype Segment = Lit(c: char) | Bottle(name: string)

  /** The command cut into literal characters and placeholders, leftmost match first. */
  function Segments(s: string): (segs: seq<Segment>)
    decreases |s|
    ensures forall k :: 0 <= k < |segs| && segs[k].Bottle? ==> ValidName(segs[k].name)
  {
    if s == [] then []
    else match PlaceholderAt(s)
      case Some(name) => [Bottle(name)] + Segments(s[|name| + 8..])
      case None => [Lit(s[0])] + Segments(s[1..])
  }

  /** The text one segment was scanned from. */
  function Piece(seg: Segment): string {
    match seg
    case Lit(c) => [c]
    case Bottle(name) => Placeholder(name)
  }

  /** The text a sequence of segments was scanned from. */
  function Render(segs: seq<Segment>): string
    decreases |segs|
  {
    if segs == [] then "" else Piece(segs[0]) + Render(segs[1..])
  }

  /** Rendering a leading segment renders its piece first. */
  lemma RenderFront(seg: Segment, segs: seq<Segment>)
    ensures Render([seg] + segs) == Piece(seg) + Render(segs)
  {
    assert ([seg] + segs)[1..] == segs;
  }

  /** How many placeholders a scan found. */
  function BottleCount(segs: seq<Segment>): nat
    decreases |segs|
  {
    if segs == [] then 0 else (if segs[0].Bottle? then 1 else 0) + BottleCount(segs[1..])
  }

  /** Scanning loses nothing: the segments render back to the command. */
  lemma {:induction false} SegmentsRender(s: string)
    ensures Render(Segments(s)) == s
  {
    if s != [] {
      match PlaceholderAt(s)
      case Some(name) =>
        var rest := s[|name| + 8..];
        SegmentsRender(rest);
        RenderFront(Bottle(name), Segments(rest));
        assert TrimPrefix(s, Placeholder(name)) == rest;
      case None =>
        SegmentsRender(s[1..]);
        RenderFront(Lit(s[0]), Segments(s[1..]));
        assert s == [s[0]] + s[1..];
    }
  }

  /**
   * The segments with every placeholder replaced by the next answer, and the
   * answers left over.
   */
  function Fill(segs: seq<Segment>, answers: seq<string>): (r: (string, seq<string>))
    decreases |segs|
    ensures |r.1| <= |answers|
  {
    if segs == [] then ("", answers)
    else
      var head := match segs[0] case Lit(c) => [c] case Bottle(_) => Answer(answers);
      var after := if segs[0].Bottle? then Remaining(answers) else answers;
      var tail := Fill(segs[1..], after);
      (head + tail.0, tail.1)
  }

  /**
   * processBottles: the command with its placeholders filled in, and the
   * answers it did not read, never more than it was given.
   */
  function ProcessBottles(command: string, answers: seq<string>): (r: (string, seq<string>))
    ensures |r.1| <= |answers|
  {
    Fill(Segments(command), answers)
  }

  /** Some placeholder occurs somewhere in `s`. */
  ghost predicate HasPlaceholder(s: string) {
    exists k: nat, name :: ValidName(name) && OccursAt(s, Placeholder(name), k)
  }

  /** Filling reads exactly one answer per placeholder. */
  lemma {:induction false} FillConsumes(segs: seq<Segment>, answers: seq<string>)
    ensures Fill(segs, answers).1 == Drop(answers, BottleCount(segs))
  {
    if segs != [] {
      var after := if segs[0].Bottle? then Remaining(answers) else answers;
      FillConsumes(segs[1..], after);
      var n := BottleCount(segs[1..]);
      if segs[0].Bottle? && answers != [] && n < |answers| - 1 {
        assert answers[1..][n..] == answers[n + 1..];
      }
    }
  }

  /** Without placeholders, filling changes nothing and reads nothing. */
  lemma {:induction false} FillNoBottles(segs: seq<Segment>, answers: seq<string>)
    requires BottleCount(segs) == 0
    ensures Fill(segs, answers) == (Render(segs), answers)
  {
    if segs != [] {
      FillNoBottles(segs[1..], answers);
    }
  }

  /** An occurrence at `k + 1` in `s` is an occurrence at `k` in `s[1..]`, and back. */
  lemma OccursShift(s: string, p: string, k: nat)
    requires |s| > 0
    ensures OccursAt(s, p, k + 1) <==> OccursAt(s[1..], p, k)
  {
    if k + 1 + |p| <= |s| {
      assert s[k + 1..k + 1 + |p|] == s[1..][k..k + |p|];
    }
  }

  /** The scan finds a placeholder exactly when one occurs in the command. */
  lemma {:induction false} BottlesIffPlaceholder(s: string)
    ensures BottleCount(Segments(s)) > 0 <==> HasPlaceholder(s)
  {
    if s == [] {
      forall k: nat, name | ValidName(name) ensures !OccursAt(s, Placeholder(name), k) {
        assert |Placeholder(name)| > 0;
      }
    } else {
      match PlaceholderAt(s)
      case Some(name) =>
        assert OccursAt(s, Placeholder(name), 0);
      case None =>
        BottlesIffPlaceholder(s[1..]);
        if HasPlaceholder(s) {
          var k: nat, name :| ValidName(name) && OccursAt(s, Placeholder(name), k);
          if k == 0 {
            PlaceholderAtComplete(s, name);
          } else {
            OccursShift(s, Placeholder(name), k - 1);
          }
          assert HasPlaceholder(s[1..]);
        }
        if HasPlaceholder(s[1..]) {
          var k: nat, name :| ValidName(name) && OccursAt(s[1..], Placeholder(name), k);
          OccursShift(s, Placeholder(name), k);
        }
    }
  }

  /** A command with no placeholder is returned unchanged and no answer is read. */
  lemma NoPlaceholderUnchanged(command: string, answers: seq<string>)
    requires !HasPlaceholder(command)
    ensures ProcessBottles(command, answers) == (command, answers)
  {
    BottlesIffPlaceholder(command);
    FillNoBottles(Segments(command), answers);
    SegmentsRender(command);
  }

  /** processBottles reads one answer for every placeholder in the command. */
  lemma OneAnswerPerPlaceholder(command: string, answers: seq<string>)
    ensures ProcessBottles(command, answers).1 == Drop(answers, BottleCount(Segments(command)))
  {
    FillConsumes(Segments(command), answers);
  }

  /**
   * A leading placeholder becomes the first answer, inserted as it is; the
   * scan resumes in the command right after the placeholder, so the answer
   * is never scanned for placeholders itself.
   */
  lemma LeadingPlaceholder(name: string, tail: string, answers: seq<string>)
    requires ValidName(name)
    ensures ProcessBottles(Placeholder(name) + tail, answers) ==
      (Answer(answers) + ProcessBottles(tail, Remaining(answers)).0, ProcessBottles(tail, Remaining(answers)).1)
  {
    var s := Placeholder(name) + tail;
    PlaceholderAtComplete(s, name);
    assert s[|name| + 8..] == tail;
  }

  /** A character that does not start a placeholder is kept, and the scan moves one character on. */
  lemma LeadingCharacter(s: string, answers: seq<string>)
    requires s != [] && PlaceholderAt(s).None?
    ensures ProcessBottles(s, answers) ==
      ([s[0]] + ProcessBottles(s[1..], answers).0, ProcessBottles(s[1..], answers).1)
  {
  }

  /** Text without the letter 'b' cannot start a placeholder, so it is copied through unchanged. */
  lemma {:induction false} PlainPrefix(u: string, tail: string, answers: seq<string>)
    requires 'b' !in u
    ensures ProcessBottles(u + tail, answers) ==
      (u + ProcessBottles(tail, answers).0, ProcessBottles(tail, answers).1)
  {
    if u != [] {
      var s := u + tail;
      assert s[0] == u[0];
      assert !HasPrefix(s, "b%('") by {
        assert s[0] != 'b';
        assert s[..1] != "b";
      }
      assert s[1..] == u[1..] + tail;
      PlainPrefix(u[1..], tail, answers);
      LeadingCharacter(s, answers);
      var r := ProcessBottles(tail, answers).0;
      assert u + r == [u[0]] + (u[1..] + r);
    } else {
      assert u + tail == tail;
      assert u + ProcessBottles(tail, answers).0 == ProcessBottles(tail, answers).0;
    }
  }

  /**
   * The value typed for a placeholder is used verbatim, even when it is a
   * placeholder itself: it is not filled in again, and only one answer is read for it.
   */
  lemma AnswerNotRescanned(name: string, other: string, tail: string, more: seq<string>)
    requires ValidName(name) && ValidName(other)
    ensures var (out, rest) := ProcessBottles(Placeholder(name) + tail, [Placeholder(other)] + more);
      out == Placeholder(other) + ProcessBottles(tail, more).0 && rest == ProcessBottles(tail, more).1 &&
      HasPlaceholder(out)
  {
    var answers := [Placeholder(other)] + more;
    LeadingPlaceholder(name, tail, answers);
    assert Answer(answers) == Placeholder(other) && Remaining(answers) == more;
    var out := Placeholder(other) + ProcessBottles(tail, more).0;
    assert OccursAt(out, Placeholder(other), 0) by {
      assert out[0..|Placeholder(other)|] == Placeholder(other);
    }
  }

  /**
   * One placeholder between plain texts, as in "ssh b%('user')%b@host": the
   * first answer takes its place and exactly that answer is read.
   */
  lemma SinglePlaceholder(before: string, name: string, after: string, value: string, more: seq<string>)
    requires 'b' !in before && 'b' !in after && ValidName(name)
    ensures ProcessBottles(before + Placeholder(name) + after, [value] + more) == (before + value + after, more)
  {
    assert ProcessBottles("", more) == ("", more);
    PlainPrefix(after, "", more);
    assert after + "" == after;
    LeadingPlaceholder(name, after, [value] + more);
    assert Remaining([value] + more) == more && Answer([value] + more) == value;
    PlainPrefix(before, Placeholder(name) + after, [value] + more);
    assert before + Placeholder(name) + after == before + (Placeholder(name) + after);
    assert before + value + after == before + (value + after);
  }
}

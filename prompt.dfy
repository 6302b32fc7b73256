/**
 * Interactive input. Every prompt in the program (`fmt.Scanln`, or a line
 * read from standard input) takes one answer; the model replaces the terminal
 * by the sequence of answers the user gives, consumed front to back. When the
 * answers run out, the prompt reads an empty answer, so an exhausted sequence
 * reads as "".
 */
module Prompt {
  /** The answer the next prompt reads. */
  function Answer(answers: seq<string>): string {
    if |answers| > 0 then answers[0] else ""
  }

  /** The answers left after one prompt. */
  function Remaining(answers: seq<string>): (rest: seq<string>)
    ensures |answers| > 0 ==> answers == [Answer(answers)] + rest
    ensures |answers| == 0 ==> rest == []
  {
    if |answers| > 0 then answers[1..] else []
  }

  /** The answers after the first `n` have been read; reading past the end leaves none. */
  function Drop(answers: seq<string>, n: nat): (rest: seq<string>)
    ensures n <= |answers| ==> answers == answers[..n] + rest
    ensures n >= |answers| ==> rest == []
  {
    if n >= |answers| then [] else answers[n..]
  }

  /** Reading `n` answers and then `m` more reads `n + m`. */
  lemma DropTwice(answers: seq<string>, n: nat, m: nat)
    ensures Drop(Drop(answers, n), m) == Drop(answers, n + m)
  {
    if n + m < |answers| {
      assert answers[n..][m..] == answers[n + m..];
    }
  }
}

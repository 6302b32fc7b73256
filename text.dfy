/**
 * The parts of Go's `strings` package the program uses, on `seq<char>`:
 * HasPrefix, TrimPrefix, Index, SplitN(s, sep, 2), Split, Join, TrimSpace
 * and Fields.
 */
module Text {
  import opened Wrappers

  /** strings.HasPrefix */
  predicate HasPrefix(s: string, p: string) {
    |p| <= |s| && s[..|p|] == p
  }

  /** Concatenation is associative. */
  lemma ConcatAssoc<T>(a: seq<T>, b: seq<T>, c: seq<T>)
    ensures a + (b + c) == (a + b) + c
  {
  }

  /** A sequence is what comes before position `j`, the element there, and what follows. */
  lemma SplitAround<T>(s: seq<T>, j: nat)
    requires j < |s|
    ensures s == s[..j] + ([s[j]] + s[j + 1..])
  {
  }

  /** A slice within a prefix of `s` is the same slice of the prefix. */
  lemma PrefixSlice(s: string, p: string, i: nat, j: nat)
    requires HasPrefix(s, p) && i <= j <= |p|
    ensures s[i..j] == p[i..j]
  {
    forall k | i <= k < j ensures s[k] == p[k] {
      assert s[..|p|][k] == s[k];
    }
  }

  /** The middle of a concatenation of three texts. */
  lemma MiddleSlice(a: string, b: string, c: string)
    ensures (a + b + c)[|a|..|a| + |b|] == b
  {
    forall k | 0 <= k < |b| ensures (a + b + c)[|a| + k] == b[k] {
      assert (a + b + c)[|a| + k] == (a + b)[|a| + k];
    }
  }

  /** strings.TrimPrefix */
  function TrimPrefix(s: string, p: string): (r: string)
    ensures HasPrefix(s, p) ==> p + r == s
    ensures !HasPrefix(s, p) ==> r == s
  {
    if HasPrefix(s, p) then s[|p|..] else s
  }

  /** `pat` occurs in `s` at index `k`. */
  predicate OccursAt(s: string, pat: string, k: nat) {
    k + |pat| <= |s| && s[k..k + |pat|] == pat
  }

  /** strings.Contains */
  predicate Contains(s: string, pat: string) {
    exists k: nat | k <= |s| :: OccursAt(s, pat, k)
  }

  /** The first index at or after `from` where `pat` occurs (strings.Index on `s[from:]`). */
  function IndexFrom(s: string, pat: string, from: nat): (r: Option<nat>)
    decreases |s| - from
    ensures r.Some? ==> from <= r.value && OccursAt(s, pat, r.value)
    ensures r.Some? ==> forall k: nat :: from <= k < r.value ==> !OccursAt(s, pat, k)
    ensures r.None? ==> forall k: nat :: from <= k ==> !OccursAt(s, pat, k)
  {
    if |s| < from + |pat| then None
    else if OccursAt(s, pat, from) then Some(from)
    else IndexFrom(s, pat, from + 1)
  }

  /** The first index at or after `from` holding the character `c` (strings.IndexByte). */
  function IndexOfChar(s: string, c: char, from: nat): (r: Option<nat>)
    decreases |s| - from
    ensures r.Some? ==> from <= r.value < |s| && s[r.value] == c
    ensures r.Some? ==> forall k :: from <= k < r.value ==> s[k] != c
    ensures r.None? ==> forall k :: from <= k < |s| ==> s[k] != c
  {
    if |s| <= from then None
    else if s[from] == c then Some(from)
    else IndexOfChar(s, c, from + 1)
  }

  /**
   * strings.SplitN(s, sep, 2): the text before and after the first `sep`,
   * or None when `s` holds no `sep` (SplitN then returns one part).
   */
  function SplitFirst(s: string, sep: string): (r: Option<(string, string)>)
    requires |sep| > 0
    ensures r.Some? ==> r.value.0 + sep + r.value.1 == s
    ensures r.Some? ==> forall k: nat :: k + |sep| <= |r.value.0| ==> !OccursAt(r.value.0, sep, k)
    ensures r.Some? ==> forall k: nat :: k < |r.value.0| ==> !OccursAt(s, sep, k)
    ensures r.None? ==> !Contains(s, sep)
  {
    match IndexFrom(s, sep, 0)
    case None => None
    case Some(i) =>
      assert s == s[..i] + sep + s[i + |sep|..] by {
        assert s[i..i + |sep|] == sep;
      }
      forall k: nat | k + |sep| <= i
        ensures !OccursAt(s[..i], sep, k)
      {
        assert s[..i][k..k + |sep|] == s[k..k + |sep|];
        assert !OccursAt(s, sep, k);
      }
      Some((s[..i], s[i + |sep|..]))
  }

  /**
   * strings.Join
   */
  function Join(parts: seq<string>, sep: string): string
    decreases |parts|
  {
    if |parts| == 0 then ""
    else if |parts| == 1 then parts[0]
    else parts[0] + sep + Join(parts[1..], sep)
  }

  /** strings.Split for a non-empty separator: the pieces between successive, non-overlapping `sep`s. */
  function Split(s: string, sep: string): (parts: seq<string>)
    requires |sep| > 0
    decreases |s|
    ensures |parts| >= 1
    ensures Join(parts, sep) == s
  {
    match IndexFrom(s, sep, 0)
    case None => [s]
    case Some(i) =>
      assert s == s[..i] + sep + s[i + |sep|..] by {
        assert s[i..i + |sep|] == sep;
      }
      [s[..i]] + Split(s[i + |sep|..], sep)
  }

  /**
   * unicode.IsSpace: the ASCII white space '\t', '\n', '\v', '\f', '\r', ' ',
   * U+0085, U+00A0 and the other characters with the White_Space property.
   */
  predicate IsSpace(c: char) {
    c == '\t' || c == '\n' || c == '\U{0B}' || c == '\U{0C}' || c == '\r' || c == ' ' ||
    c == '\U{85}' || c == '\U{A0}' || c == '\U{1680}' || ('\U{2000}' <= c <= '\U{200A}') ||
    c == '\U{2028}' || c == '\U{2029}' || c == '\U{202F}' || c == '\U{205F}' || c == '\U{3000}'
  }

  /** Neither end of `s` is white space. */
  predicate Trimmed(s: string) {
    s == [] || (!IsSpace(s[0]) && !IsSpace(s[|s| - 1]))
  }

  /** `s` without its leading white space. */
  function TrimLeft(s: string): (r: string)
    decreases |s|
    ensures |r| <= |s| && r == s[|s| - |r|..]
    ensures r == [] || !IsSpace(r[0])
    ensures forall k :: 0 <= k < |s| - |r| ==> IsSpace(s[k])
  {
    if |s| > 0 && IsSpace(s[0]) then TrimLeft(s[1..]) else s
  }

  /** `s` without its trailing white space. */
  function TrimRight(s: string): (r: string)
    decreases |s|
    ensures |r| <= |s| && r == s[..|r|]
    ensures r == [] || !IsSpace(r[|r| - 1])
    ensures forall k :: |r| <= k < |s| ==> IsSpace(s[k])
  {
    if |s| > 0 && IsSpace(s[|s| - 1]) then TrimRight(s[..|s| - 1]) else s
  }

  /** Every character of `s` is white space. */
  predicate AllSpace(s: string) {
    forall k :: 0 <= k < |s| ==> IsSpace(s[k])
  }

  /** `s` is white space, then `r`, then white space. */
  ghost predicate SpaceAround(s: string, r: string) {
    exists i :: 0 <= i <= |s| - |r| && AllSpace(s[..i]) && s[i..][..|r|] == r && AllSpace(s[i + |r|..])
  }

  /**
   * strings.TrimSpace: the result neither starts nor ends with white space,
   * and a trimmed text is returned unchanged; TrimSpaceCut states that the
   * input is white space, then the result, then white space.
   */
  function TrimSpace(s: string): (r: string)
    ensures Trimmed(r)
    ensures Trimmed(s) ==> r == s
    ensures forall c :: c in r ==> c in s
  {
    var l := TrimLeft(s);
    var r := TrimRight(l);
    TrimmedKept(s);
    assert forall c :: c in r ==> c in s by {
      assert forall c :: c in l ==> c in s;
    }
    r
  }

  /** strings.TrimSpace cuts off exactly the white space at both ends. */
  lemma TrimSpaceCut(s: string)
    ensures SpaceAround(s, TrimSpace(s))
  {
    TrimCut(s, TrimLeft(s), TrimRight(TrimLeft(s)));
  }

  /** Neither TrimLeft nor TrimRight changes a trimmed text. */
  lemma TrimmedKept(s: string)
    ensures Trimmed(s) ==> TrimLeft(s) == s && TrimRight(s) == s
  {
  }

  /** The white space TrimLeft skips. */
  lemma LeadingSpace(s: string, l: string)
    requires |l| <= |s| && forall k :: 0 <= k < |s| - |l| ==> IsSpace(s[k])
    ensures AllSpace(s[..|s| - |l|])
  {
    var p := s[..|s| - |l|];
    forall k | 0 <= k < |p| ensures IsSpace(p[k]) {
      assert p[k] == s[k];
    }
  }

  /** The white space TrimRight drops. */
  lemma TrailingSpace(l: string, r: string)
    requires |r| <= |l| && forall k :: |r| <= k < |l| ==> IsSpace(l[k])
    ensures AllSpace(l[|r|..])
  {
    var t := l[|r|..];
    forall k | 0 <= k < |t| ensures IsSpace(t[k]) {
      assert t[k] == l[|r| + k];
    }
  }

  /** White space, then `r`, then white space: the cut TrimLeft and TrimRight make. */
  lemma TrimCut(s: string, l: string, r: string)
    requires |l| <= |s| && l == s[|s| - |l|..] && forall k :: 0 <= k < |s| - |l| ==> IsSpace(s[k])
    requires |r| <= |l| && r == l[..|r|] && forall k :: |r| <= k < |l| ==> IsSpace(l[k])
    ensures SpaceAround(s, r)
  {
    var i := |s| - |l|;
    LeadingSpace(s, l);
    TrailingSpace(l, r);
    assert s[i..] == l;
    assert s[i + |r|..] == l[|r|..];
  }

  /** Trimming a trimmed text followed by white space gives the text back. */
  lemma {:induction false} TrimSpaceTrailing(s: string, c: char)
    requires Trimmed(s) && IsSpace(c)
    ensures TrimSpace(s + [c]) == s
  {
    if s == [] {
      assert TrimLeft([c]) == TrimLeft([]);
    } else {
      assert TrimLeft(s + [c]) == s + [c];
      assert (s + [c])[..|s + [c]| - 1] == s;
    }
  }

  /** The length of the run of non-space characters at the front of `s`. */
  function WordLength(s: string): (n: nat)
    decreases |s|
    ensures n <= |s|
    ensures forall k :: 0 <= k < n ==> !IsSpace(s[k])
    ensures n < |s| ==> IsSpace(s[n])
  {
    if |s| == 0 || IsSpace(s[0]) then 0 else 1 + WordLength(s[1..])
  }

  /** A non-empty run of non-space characters. */
  predicate IsWord(w: string) {
    w != [] && forall k :: 0 <= k < |w| ==> !IsSpace(w[k])
  }

  /** A text that starts with a non-space character starts with a word. */
  lemma WordAtFront(t: string)
    requires t != [] && !IsSpace(t[0])
    ensures 0 < WordLength(t) && IsWord(t[..WordLength(t)])
  {
    var w := t[..WordLength(t)];
    forall k | 0 <= k < |w| ensures !IsSpace(w[k]) {
      assert w[k] == t[k];
    }
  }

  /** strings.Fields: the maximal runs of non-space characters, in order. */
  function Fields(s: string): (words: seq<string>)
    decreases |s|
    ensures forall k :: 0 <= k < |words| ==> IsWord(words[k])
  {
    if s == [] then []
    else if IsSpace(s[0]) then Fields(s[1..])
    else
      WordAtFront(s);
      [s[..WordLength(s)]] + Fields(s[WordLength(s)..])
  }
}

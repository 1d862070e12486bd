/**
 * The few regular expressions the scripts use, all of the shape
 * `open (.*?) close` or `open (.*) close`, where `open` and `close` are fixed
 * strings.  Here an unescaped `.` and the group match any character, a newline
 * included, whereas Python's `re` without DOTALL stops at a newline; the
 * texts searched are taken to be single lines.  `re.search` finds
 * the leftmost start; the lazy group then ends at the first `close` after
 * `open`, the greedy group at the last one.  `re.sub` replaces the leftmost
 * lazy match and goes on after it.
 */
module Patterns {
  import opened Outcomes

  /** One position of a fixed pattern: a literal character or an unescaped `.`. */
  datatype Atom = Lit(c: char) | Wild

  type Pattern = seq<Atom>

  /** The pattern matching exactly the string `s`. */
  function Literal(s: string): (p: Pattern)
    ensures |p| == |s| && forall k :: 0 <= k < |s| ==> p[k] == Lit(s[k])
  {
    seq(|s|, k requires 0 <= k < |s| => Lit(s[k]))
  }

  predicate AtomMatches(a: Atom, c: char) {
    a.Wild? || a.c == c
  }

  /** The pattern `p` matches `s` at index `i`. */
  predicate MatchesAt(s: string, p: Pattern, i: int) {
    0 <= i && i + |p| <= |s| && forall k :: 0 <= k < |p| ==> AtomMatches(p[k], s[i + k])
  }

  /** A literal pattern matches exactly where its string occurs. */
  lemma LiteralMatches(s: string, t: string, i: int)
    ensures MatchesAt(s, Literal(t), i) <==> 0 <= i && i + |t| <= |s| && s[i..i + |t|] == t
  {
    if 0 <= i && i + |t| <= |s| && MatchesAt(s, Literal(t), i) {
      assert forall k :: 0 <= k < |t| ==> s[i..i + |t|][k] == t[k];
    }
  }

  /** The first index from `from` on where `p` matches. */
  function FirstMatch(s: string, p: Pattern, from: nat): (r: Option<nat>)
    ensures r.Some? ==> from <= r.value && MatchesAt(s, p, r.value)
    ensures r.Some? ==> forall j :: from <= j < r.value ==> !MatchesAt(s, p, j)
    ensures r.None? ==> forall j :: from <= j ==> !MatchesAt(s, p, j)
    decreases |s| - from
  {
    if from + |p| > |s| then None
    else if MatchesAt(s, p, from) then Some(from)
    else FirstMatch(s, p, from + 1)
  }

  /** The last index from `from` on where `p` matches. */
  function LastMatch(s: string, p: Pattern, from: nat): (r: Option<nat>)
    ensures r.Some? ==> from <= r.value && MatchesAt(s, p, r.value)
    ensures r.Some? ==> forall j :: r.value < j ==> !MatchesAt(s, p, j)
    ensures r.None? ==> forall j :: from <= j ==> !MatchesAt(s, p, j)
  {
    LastMatchBelow(s, p, from, |s| - |p|)
  }

  /** The last index in [from, hi] where `p` matches. */
  function LastMatchBelow(s: string, p: Pattern, from: nat, hi: int): (r: Option<nat>)
    requires forall j :: hi < j ==> !MatchesAt(s, p, j)
    ensures r.Some? ==> from <= r.value <= hi && MatchesAt(s, p, r.value)
    ensures r.Some? ==> forall j :: r.value < j ==> !MatchesAt(s, p, j)
    ensures r.None? ==> forall j :: from <= j ==> !MatchesAt(s, p, j)
    decreases if hi < from then 0 else hi - from + 1
  {
    if hi < from then None
    else if MatchesAt(s, p, hi) then Some(hi)
    else LastMatchBelow(s, p, from, hi - 1)
  }

  /** The first match is the one found at `i` when nothing matches earlier. */
  lemma FirstMatchAt(s: string, p: Pattern, from: nat, i: nat)
    requires from <= i && MatchesAt(s, p, i)
    requires forall j :: from <= j < i ==> !MatchesAt(s, p, j)
    ensures FirstMatch(s, p, from) == Some(i)
  {
  }

  /** A one-character pattern first matches at the first occurrence of its character. */
  lemma FirstCharMatch(s: string, c: char, from: nat, k: nat)
    requires from <= k < |s| && s[k] == c
    requires forall j :: from <= j < k ==> s[j] != c
    ensures FirstMatch(s, Literal([c]), from) == Some(k)
  {
    var p := Literal([c]);
    assert p[0] == Lit(c);
    assert MatchesAt(s, p, k);
    forall j | from <= j < k ensures !MatchesAt(s, p, j) {
      assert s[j + 0] != c;
    }
    FirstMatchAt(s, p, from, k);
  }

  /** `open` at `i` and `close` at `j`, with the group `s[i + |open|..j]` between. */
  predicate IsMatch(s: string, open: Pattern, close: Pattern, i: int, j: int) {
    MatchesAt(s, open, i) && i + |open| <= j && MatchesAt(s, close, j)
  }

  /** `re.search(open (.*?) close, s)` from index `from`, as the positions of
      `open` and of `close`. */
  function SearchLazy(s: string, open: Pattern, close: Pattern, from: nat): (r: Option<(nat, nat)>)
    ensures r.Some? ==> from <= r.value.0 && IsMatch(s, open, close, r.value.0, r.value.1)
  {
    match FirstMatch(s, open, from)
    case None => None
    case Some(i) =>
      match FirstMatch(s, close, i + |open|)
      case None => None
      case Some(j) => Some((i, j))
  }

  /** The lazy search finds a match exactly when there is one; it is the one with
      the leftmost start and, for that start, the shortest group. */
  lemma SearchLazySpec(s: string, open: Pattern, close: Pattern, from: nat)
    ensures var r := SearchLazy(s, open, close, from);
      (r.None? <==> forall i, j :: from <= i ==> !IsMatch(s, open, close, i, j)) &&
      (r.Some? ==> forall i, j :: from <= i < r.value.0 ==> !IsMatch(s, open, close, i, j)) &&
      (r.Some? ==> forall j :: IsMatch(s, open, close, r.value.0, j) ==> r.value.1 <= j)
  {
    var r := SearchLazy(s, open, close, from);
    if r.Some? {
      assert IsMatch(s, open, close, r.value.0, r.value.1);
    }
  }

  /** `re.search(open (.*) close, s)`, as the positions of `open` and of `close`. */
  function SearchGreedy(s: string, open: Pattern, close: Pattern): (r: Option<(nat, nat)>)
    ensures r.Some? ==> IsMatch(s, open, close, r.value.0, r.value.1)
  {
    match FirstMatch(s, open, 0)
    case None => None
    case Some(i) =>
      match LastMatch(s, close, i + |open|)
      case None => None
      case Some(j) => Some((i, j))
  }

  /** The greedy search finds a match exactly when there is one; it is the one
      with the leftmost start and, for that start, the longest group. */
  lemma SearchGreedySpec(s: string, open: Pattern, close: Pattern)
    ensures var r := SearchGreedy(s, open, close);
      (r.None? <==> forall i, j :: !IsMatch(s, open, close, i, j)) &&
      (r.Some? ==> forall i, j :: i < r.value.0 ==> !IsMatch(s, open, close, i, j)) &&
      (r.Some? ==> forall j :: IsMatch(s, open, close, r.value.0, j) ==> j <= r.value.1)
  {
    var r := SearchGreedy(s, open, close);
    if r.Some? {
      assert IsMatch(s, open, close, r.value.0, r.value.1);
    }
  }

  /** The group of a lazy search: `match[1]`, or None when there is no match. */
  function GroupLazy(s: string, open: Pattern, close: Pattern): (r: Option<string>)
    ensures r.Some? <==> SearchLazy(s, open, close, 0).Some?
  {
    match SearchLazy(s, open, close, 0)
    case None => None
    case Some((i, j)) => Some(s[i + |open|..j])
  }

  /** The group of a greedy search. */
  function GroupGreedy(s: string, open: Pattern, close: Pattern): (r: Option<string>)
    ensures r.Some? <==> SearchGreedy(s, open, close).Some?
  {
    match SearchGreedy(s, open, close)
    case None => None
    case Some((i, j)) => Some(s[i + |open|..j])
  }

  /** The text before the leftmost lazy match, its group, and the text after it. */
  function SplitLazy(s: string, open: Pattern, close: Pattern): (r: Option<(string, string, string)>)
    requires close != []
    ensures r.None? <==> SearchLazy(s, open, close, 0).None?
    ensures r.Some? ==> |r.value.2| < |s|
    ensures r.Some? ==> var (i, j) := SearchLazy(s, open, close, 0).value;
      r.value == (s[..i], s[i + |open|..j], s[j + |close|..])
  {
    match SearchLazy(s, open, close, 0)
    case None => None
    case Some((i, j)) => Some((s[..i], s[i + |open|..j], s[j + |close|..]))
  }

  /** `re.sub(open (.*?) close, f, s)`: every leftmost lazy match, taken left
      to right without overlap, replaced by `f` of its group. */
  function SubLazy(s: string, open: Pattern, close: Pattern, f: string -> string): string
    requires close != []
    decreases |s|
  {
    match SplitLazy(s, open, close)
    case None => s
    case Some((before, group, after)) => before + f(group) + SubLazy(after, open, close, f)
  }

  /** Text without a match is left as it is. */
  lemma SubLazyNoMatch(s: string, open: Pattern, close: Pattern, f: string -> string)
    requires close != []
    requires forall i :: !MatchesAt(s, open, i)
    ensures SubLazy(s, open, close, f) == s
  {
  }

  /** A character absent from the text, and never introduced by `f`, is absent
      from the substituted text. */
  lemma {:induction false} SubLazyAvoids(s: string, open: Pattern, close: Pattern, f: string -> string, c: char)
    requires close != [] && c !in s
    requires forall g :: c !in g ==> c !in f(g)
    ensures c !in SubLazy(s, open, close, f)
    decreases |s|
  {
    match SplitLazy(s, open, close)
    case None =>
    case Some((before, group, after)) =>
      var (i, j) := SearchLazy(s, open, close, 0).value;
      assert c !in before by { assert forall k :: 0 <= k < |before| ==> before[k] == s[k]; }
      assert c !in group by { assert forall k :: 0 <= k < |group| ==> group[k] == s[i + |open| + k]; }
      assert c !in after by { assert forall k :: 0 <= k < |after| ==> after[k] == s[j + |close| + k]; }
      SubLazyAvoids(after, open, close, f, c);
  }

  /** The lazy search is made of the two first matches. */
  lemma SearchLazyFound(s: string, open: Pattern, close: Pattern, from: nat, i: nat, j: nat)
    requires FirstMatch(s, open, from) == Some(i) && FirstMatch(s, close, i + |open|) == Some(j)
    ensures SearchLazy(s, open, close, from) == Some((i, j))
  {
  }

  /** A doubled delimiter matches nowhere its character is absent. */
  lemma NoDelimiter(s: string, c: char, lo: int, hi: int)
    requires forall j :: lo <= j < hi && 0 <= j < |s| ==> s[j] != c
    ensures forall j :: lo <= j < hi ==> !MatchesAt(s, Literal([c, c]), j)
  {
    assert Literal([c, c])[0] == Lit(c);
  }

  /** The first doubled delimiter from `from` on is at `i` when `c` does not occur in between. */
  lemma FirstDelimiter(s: string, c: char, from: nat, i: nat)
    requires from <= i && i + 2 <= |s| && s[i] == c && s[i + 1] == c
    requires forall j :: from <= j < i ==> s[j] != c
    ensures FirstMatch(s, Literal([c, c]), from) == Some(i)
  {
    NoDelimiter(s, c, from, i);
    assert MatchesAt(s, Literal([c, c]), i);
    FirstMatchAt(s, Literal([c, c]), from, i);
  }

  /** A doubled delimiter `cc`, text `a` free of `c`, a group `x` free of `c`:
      the first match of `cc (.*?) cc` in `a + cc + x + cc + b` is the group `x`. */
  lemma SearchDelimited(a: string, x: string, b: string, c: char)
    requires c !in a && c !in x
    ensures var s := a + [c, c] + x + [c, c] + b;
      SearchLazy(s, Literal([c, c]), Literal([c, c]), 0) == Some((|a|, |a| + 2 + |x|))
  {
    var s := a + [c, c] + x + [c, c] + b;
    var d := Literal([c, c]);
    var k := |a| + 2 + |x|;
    assert s[|a|] == c && s[|a| + 1] == c && s[k] == c && s[k + 1] == c;
    assert forall j :: 0 <= j < |a| ==> s[j] == a[j];
    FirstDelimiter(s, c, 0, |a|);
    assert forall j :: |a| + 2 <= j < k ==> s[j] == x[j - |a| - 2];
    FirstDelimiter(s, c, |a| + 2, k);
    SearchLazyFound(s, d, d, 0, |a|, k);
  }

  /** Substituting in such a text replaces the delimited group and goes on after it. */
  lemma SubDelimited(a: string, x: string, b: string, c: char, f: string -> string)
    requires c !in a && c !in x
    ensures SubLazy(a + [c, c] + x + [c, c] + b, Literal([c, c]), Literal([c, c]), f) ==
      a + f(x) + SubLazy(b, Literal([c, c]), Literal([c, c]), f)
  {
    var s := a + [c, c] + x + [c, c] + b;
    var d := Literal([c, c]);
    var k := |a| + 2 + |x|;
    SearchDelimited(a, x, b, c);
    assert |d| == 2;
    assert s[..|a|] == a;
    assert s[|a| + 2..k] == x;
    assert s[k + 2..] == b;
    assert SplitLazy(s, d, d) == Some((a, x, b));
  }

  /** Text in which the delimiter character does not occur is left as it is. */
  lemma SubDelimitedNone(s: string, c: char, f: string -> string)
    requires c !in s
    ensures SubLazy(s, Literal([c, c]), Literal([c, c]), f) == s
  {
    NoDelimiter(s, c, 0, |s|);
  }

  /** The last match is the one at `i` when nothing matches later. */
  lemma LastMatchAt(s: string, p: Pattern, from: nat, i: nat)
    requires from <= i && MatchesAt(s, p, i)
    requires forall j :: i < j ==> !MatchesAt(s, p, j)
    ensures LastMatch(s, p, from) == Some(i)
  {
  }

  /** With `c` absent before the first and after the last doubled delimiter, the
      greedy group `cc (.*) cc` is everything between them, delimiters included. */
  lemma GroupGreedyDelimited(a: string, x: string, b: string, c: char)
    requires c !in a && c !in b
    ensures GroupGreedy(a + [c, c] + x + [c, c] + b, Literal([c, c]), Literal([c, c])) == Some(x)
  {
    var front := a + [c, c] + x + [c, c];
    DelimitedFront(a, x, c);
    GroupGreedyAt(front, b, c, |a|);
  }

  /** The shape of `a + cc + x + cc`, index by index. */
  lemma DelimitedFront(a: string, x: string, c: char)
    requires c !in a
    ensures var front := a + [c, c] + x + [c, c];
      |front| == |a| + |x| + 4 && front[|a|] == c && front[|a| + 1] == c &&
      front[|front| - 2] == c && front[|front| - 1] == c &&
      (forall j :: 0 <= j < |a| ==> front[j] != c) &&
      front[|a| + 2..|front| - 2] == x
  {
    var front := a + [c, c] + x + [c, c];
    assert forall j :: 0 <= j < |a| ==> front[j] == a[j];
    MiddleSlice(a + [c, c], x, [c, c], []);
    assert a + [c, c] + x + [c, c] + [] == front;
  }

  /** A text whose first doubled delimiter is at `i` and whose last one ends
      it, followed by text free of `c`: the greedy group lies between them. */
  lemma GroupGreedyAt(front: string, b: string, c: char, i: nat)
    requires i + 4 <= |front| && front[i] == c && front[i + 1] == c
    requires front[|front| - 2] == c && front[|front| - 1] == c
    requires forall j :: 0 <= j < i ==> front[j] != c
    requires c !in b
    ensures GroupGreedy(front + b, Literal([c, c]), Literal([c, c])) == Some(front[i + 2..|front| - 2])
  {
    var s := front + b;
    var d := Literal([c, c]);
    assert forall j :: 0 <= j < |front| ==> s[j] == front[j];
    FirstDelimiter(s, c, 0, i);
    LastDelimiterBefore(front, b, c, i + 2);
    GroupGreedyBetween(s, d, i, |front| - 2);
    assert s[i + 2..|front| - 2] == front[i + 2..|front| - 2];
  }

  /** The greedy group lies between the first opening match and the last
      closing match after it. */
  lemma GroupGreedyBetween(s: string, d: Pattern, i: nat, k: nat)
    requires FirstMatch(s, d, 0) == Some(i) && LastMatch(s, d, i + |d|) == Some(k)
    ensures GroupGreedy(s, d, d) == Some(s[i + |d|..k])
  {
  }

  lemma MiddleSlice(p: string, x: string, q: string, r: string)
    ensures (p + x + q + r)[|p|..|p| + |x|] == x
  {
    var s := p + x + q + r;
    assert forall j :: 0 <= j < |x| ==> s[|p| + j] == x[j];
  }

  /** A text ending in a doubled delimiter, followed by text free of `c`:
      that delimiter is the last match. */
  lemma LastDelimiterBefore(front: string, b: string, c: char, from: nat)
    requires from + 2 <= |front| && front[|front| - 2] == c && front[|front| - 1] == c && c !in b
    ensures LastMatch(front + b, Literal([c, c]), from) == Some(|front| - 2)
  {
    var s := front + b;
    assert forall j :: |front| <= j < |s| ==> s[j] == b[j - |front|];
    LastDelimiter(s, c, from, |front| - 2);
  }

  /** The last doubled delimiter is at `k` when `c` does not occur after it. */
  lemma LastDelimiter(s: string, c: char, from: nat, k: nat)
    requires from <= k && k + 2 <= |s| && s[k] == c && s[k + 1] == c
    requires forall j :: k + 2 <= j < |s| ==> s[j] != c
    ensures LastMatch(s, Literal([c, c]), from) == Some(k)
  {
    var d := Literal([c, c]);
    assert d[0] == Lit(c) && d[1] == Lit(c);
    forall j | k < j ensures !MatchesAt(s, d, j) {
      if j + 2 <= |s| {
        assert s[j + 1] != c;
      }
    }
    assert MatchesAt(s, d, k);
    LastMatchAt(s, d, from, k);
  }
}

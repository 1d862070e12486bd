/**
 * Reading a plain-text roster (roster/rosterread.py and the older
 * rosterread.py).  Each line of the roster has a link to the member's WA
 * nation followed by the member's name, as
 * `[a href="https://www.nationstates.net/nation=<wa>"]<member>[/a]`; the
 * reader maps the member to the WA nation.  The older reader also passes both
 * through `clean_format`.
 */
module RosterRead {
  import opened Outcomes
  import opened Core
  import opened Dicts
  import opened Patterns

  /** `\[a href="https://www.nationstates.net/nation=`: its two dots are unescaped. */
  const AnchorOpen: Pattern :=
    Literal("[a href=\"https://www") + [Wild] + Literal("nationstates") + [Wild] + Literal("net/nation=")

  /** `"\]`, which ends the WA nation's name. */
  const AnchorClose: Pattern := Literal("\"]")

  /** `\](.*?)\[`: the member is the text from the first `]` to the next `[`. */
  const NameOpen: Pattern := Literal("]")
  const NameClose: Pattern := Literal("[")

  /** The (member, WA nation) pair one line contributes, when both searches match. */
  function ReadLine(line: string): (r: Option<(string, string)>)
    ensures r.Some? <==> GroupLazy(line, AnchorOpen, AnchorClose).Some? && GroupLazy(line, NameOpen, NameClose).Some?
    ensures r.Some? ==> Some(r.value.0) == GroupLazy(line, NameOpen, NameClose) &&
                        Some(r.value.1) == GroupLazy(line, AnchorOpen, AnchorClose)
  {
    var wa := GroupLazy(line, AnchorOpen, AnchorClose);
    var nation := GroupLazy(line, NameOpen, NameClose);
    if wa.Some? && nation.Some? then Some((nation.value, wa.value)) else None
  }

  /** What each line contributes, line by line. */
  function Found(lines: seq<string>): (r: seq<Option<(string, string)>>)
    ensures |r| == |lines| && forall i :: 0 <= i < |lines| ==> r[i] == ReadLine(lines[i])
  {
    seq(|lines|, i requires 0 <= i < |lines| => ReadLine(lines[i]))
  }

  /** The pairs contributed by the lines, in order. */
  function LinePairs(lines: seq<string>): seq<(string, string)> {
    Somes(Found(lines))
  }

  /** The pairs of one line, as a list. */
  function LinePair(line: string): seq<(string, string)> {
    match ReadLine(line) case None => [] case Some(p) => [p]
  }

  lemma LinePairsSnoc(lines: seq<string>, line: string)
    ensures LinePairs(lines + [line]) == LinePairs(lines) + LinePair(line)
  {
    assert Found(lines + [line]) == Found(lines) + [ReadLine(line)];
    SomesSnoc(Found(lines), ReadLine(line));
  }

  /** The same pairs with member and WA nation both cleaned. */
  function CleanPairs(pairs: seq<(string, string)>): (r: seq<(string, string)>)
    ensures |r| == |pairs|
    ensures forall i :: 0 <= i < |pairs| ==> r[i] == (CleanFormat(pairs[i].0), CleanFormat(pairs[i].1))
  {
    seq(|pairs|, i requires 0 <= i < |pairs| => (CleanFormat(pairs[i].0), CleanFormat(pairs[i].1)))
  }

  /** One more line read: its pair, if any, is assigned. */
  lemma PlainStep(found: seq<Option<(string, string)>>, i: nat)
    requires i < |found|
    ensures FromPairs(Plain, Somes(found[..i + 1])) ==
      if found[i].Some? then Put(Plain, FromPairs(Plain, Somes(found[..i])), found[i].value.0, found[i].value.1)
      else FromPairs(Plain, Somes(found[..i]))
  {
    assert found[..i + 1] == found[..i] + [found[i]];
    SomesSnoc(found[..i], found[i]);
    if found[i].Some? {
      FromPairsSnoc(Plain, Somes(found[..i]), found[i].value);
    } else {
      assert Somes(found[..i]) + [] == Somes(found[..i]);
    }
  }

  /** One more line read by the cleaned reader: its cleaned pair, if any, is assigned. */
  lemma CleanStep(found: seq<Option<(string, string)>>, i: nat)
    requires i < |found|
    ensures FromPairs(Plain, CleanPairs(Somes(found[..i + 1]))) ==
      if found[i].Some? then
        Put(Plain, FromPairs(Plain, CleanPairs(Somes(found[..i]))), CleanFormat(found[i].value.0), CleanFormat(found[i].value.1))
      else FromPairs(Plain, CleanPairs(Somes(found[..i])))
  {
    assert found[..i + 1] == found[..i] + [found[i]];
    SomesSnoc(found[..i], found[i]);
    if found[i].Some? {
      var p := found[i].value;
      var c := (CleanFormat(p.0), CleanFormat(p.1));
      assert CleanPairs(Somes(found[..i]) + [p]) == CleanPairs(Somes(found[..i])) + [c];
      FromPairsSnoc(Plain, CleanPairs(Somes(found[..i])), c);
    } else {
      assert Somes(found[..i]) + [] == Somes(found[..i]);
    }
  }

  /** `read_plain` of roster/rosterread.py: each matching line assigns its WA
      nation to its member, as written. */
  method ReadPlain(lines: seq<string>) returns (output: Dict<string>)
    ensures output == FromPairs(Plain, LinePairs(lines))
  {
    ghost var found := Found(lines);
    output := [];
    var i := 0;
    while i < |lines|
      invariant 0 <= i <= |lines|
      invariant output == FromPairs(Plain, Somes(found[..i]))
    {
      var line := lines[i];
      var waMatch := GroupLazy(line, AnchorOpen, AnchorClose);
      var nationMatch := GroupLazy(line, NameOpen, NameClose);
      assert found[i] == ReadLine(line);
      PlainStep(found, i);
      if waMatch.Some? && nationMatch.Some? {
        output := Put(Plain, output, nationMatch.value, waMatch.value);
      }
      i := i + 1;
    }
    assert found[..i] == found;
  }

  /** `read_plain` of rosterread.py: the same, with both names cleaned. */
  method ReadPlainClean(lines: seq<string>) returns (output: Dict<string>)
    ensures output == FromPairs(Plain, CleanPairs(LinePairs(lines)))
  {
    ghost var found := Found(lines);
    output := [];
    var i := 0;
    while i < |lines|
      invariant 0 <= i <= |lines|
      invariant output == FromPairs(Plain, CleanPairs(Somes(found[..i])))
    {
      var line := lines[i];
      var waMatch := GroupLazy(line, AnchorOpen, AnchorClose);
      var nationMatch := GroupLazy(line, NameOpen, NameClose);
      assert found[i] == ReadLine(line);
      CleanStep(found, i);
      if waMatch.Some? && nationMatch.Some? {
        output := Put(Plain, output, CleanFormat(nationMatch.value), CleanFormat(waMatch.value));
      }
      i := i + 1;
    }
    assert found[..i] == found;
  }

  /** One more line: a matching line assigns its WA nation to its member,
      overwriting an earlier one; any other line changes nothing. */
  lemma ReadPlainSnoc(lines: seq<string>, line: string, q: string)
    ensures var before := FromPairs(Plain, LinePairs(lines));
      var after := FromPairs(Plain, LinePairs(lines + [line]));
      match ReadLine(line)
      case None => after == before
      case Some((nation, wa)) => Get(Plain, after, q) == if q == nation then Ok(wa) else Get(Plain, before, q)
  {
    LinePairsSnoc(lines, line);
    match ReadLine(line)
    case None =>
      assert LinePairs(lines + [line]) == LinePairs(lines);
    case Some(p) =>
      FromPairsSnoc(Plain, LinePairs(lines), p);
      GetPut(Plain, FromPairs(Plain, LinePairs(lines)), p.0, p.1, q);
  }

  /** In the cleaned reader, the key and value of a matching line are its cleaned
      names; a later line whose member is the same nation, spelled in another
      case or with spaces for underscores, overwrites it. */
  lemma ReadPlainCleanSnoc(lines: seq<string>, line: string, q: string)
    ensures var before := FromPairs(Plain, CleanPairs(LinePairs(lines)));
      var after := FromPairs(Plain, CleanPairs(LinePairs(lines + [line])));
      match ReadLine(line)
      case None => after == before
      case Some((nation, wa)) =>
        Get(Plain, after, q) == if SameNation(q, nation) && q == CleanFormat(q) then Ok(CleanFormat(wa)) else Get(Plain, before, q)
  {
    LinePairsSnoc(lines, line);
    match ReadLine(line)
    case None =>
      assert LinePairs(lines + [line]) == LinePairs(lines);
    case Some(p) =>
      CleanSnocPair(LinePairs(lines), p, q);
  }

  /** One more pair for the cleaned reader: its cleaned member reads back its
      cleaned WA nation, any other key what it read before. */
  lemma CleanSnocPair(pairs: seq<(string, string)>, p: (string, string), q: string)
    ensures Get(Plain, FromPairs(Plain, CleanPairs(pairs + [p])), q) ==
      if SameNation(q, p.0) && q == CleanFormat(q) then Ok(CleanFormat(p.1)) else Get(Plain, FromPairs(Plain, CleanPairs(pairs)), q)
  {
    var c := (CleanFormat(p.0), CleanFormat(p.1));
    var d := FromPairs(Plain, CleanPairs(pairs));
    assert CleanPairs(pairs + [p]) == CleanPairs(pairs) + [c];
    FromPairsSnoc(Plain, CleanPairs(pairs), c);
    CleanFormatIdempotent(p.0);
    if q == c.0 {
      GetPutSame(Plain, d, c.0, c.1, q);
    } else {
      GetPutOther(Plain, d, c.0, c.1, q);
    }
  }

  /** Every key and value of the cleaned reader's output is in clean form. */
  lemma {:induction false} ReadPlainCleanIsClean(pairs: seq<(string, string)>)
    ensures var out := FromPairs(Plain, CleanPairs(pairs));
      forall e <- out :: CleanFormat(e.0) == e.0 && CleanFormat(e.1) == e.1
    decreases |pairs|
  {
    if pairs != [] {
      var n := |pairs| - 1;
      var init := pairs[..n];
      var c := CleanPairs(pairs)[n];
      ReadPlainCleanIsClean(init);
      assert CleanPairs(pairs) == CleanPairs(init) + [c];
      FromPairsSnoc(Plain, CleanPairs(init), c);
      CleanFormatIdempotent(pairs[n].0);
      CleanFormatIdempotent(pairs[n].1);
      CleanPut(FromPairs(Plain, CleanPairs(init)), c.0, c.1);
    }
  }

  /** Assigning a clean value to a clean key keeps every entry clean. */
  lemma CleanPut(d: Dict<string>, k: string, v: string)
    requires forall e <- d :: CleanFormat(e.0) == e.0 && CleanFormat(e.1) == e.1
    requires CleanFormat(k) == k && CleanFormat(v) == v
    ensures forall e <- Put(Plain, d, k, v) :: CleanFormat(e.0) == e.0 && CleanFormat(e.1) == e.1
  {
    if In(Plain, d, k) {
      var i := Find(NormKeys(Plain, d), Norm(Plain, k)).value;
      assert Put(Plain, d, k, v) == d[i := (d[i].0, v)];
    }
  }

  /** The text of the anchor up to the WA nation's name. */
  const AnchorScheme: string := "[a href=\"https://www"
  const AnchorHost: string := "nationstates"
  const AnchorPath: string := "net/nation="
  const AnchorText: string := AnchorScheme + "." + AnchorHost + "." + AnchorPath

  /** The anchor pattern matches its own text (its dots match the dots). */
  lemma AnchorOpenMatchesText()
    ensures |AnchorOpen| == |AnchorText|
    ensures forall m :: 0 <= m < |AnchorText| ==> AtomMatches(AnchorOpen[m], AnchorText[m])
  {
    var ta, tb, tc := AnchorScheme, AnchorHost, AnchorPath;
    var a, b, c := Literal(ta), Literal(tb), Literal(tc);
    assert AnchorOpen == a + [Wild] + b + [Wild] + c;
    assert AnchorText == ta + "." + tb + "." + tc;
    WholeMatch(ta, a, ".", [Wild]);
    WholeMatch(ta + ".", a + [Wild], tb, b);
    WholeMatch(ta + "." + tb, a + [Wild] + b, ".", [Wild]);
    WholeMatch(ta + "." + tb + ".", a + [Wild] + b + [Wild], tc, c);
  }

  /** Patterns matching two texts atom by atom match their concatenation. */
  lemma WholeMatch(s: string, p: Pattern, t: string, q: Pattern)
    requires |p| == |s| && forall m :: 0 <= m < |s| ==> AtomMatches(p[m], s[m])
    requires |q| == |t| && forall m :: 0 <= m < |t| ==> AtomMatches(q[m], t[m])
    ensures |p + q| == |s + t| && forall m :: 0 <= m < |s + t| ==> AtomMatches((p + q)[m], (s + t)[m])
  {
    forall m | 0 <= m < |s + t| ensures AtomMatches((p + q)[m], (s + t)[m]) {
      if m >= |s| {
        assert (p + q)[m] == q[m - |s|] && (s + t)[m] == t[m - |s|];
      }
    }
  }

  /** A line in the roster's format gives back its member and WA nation, provided
      the WA name has no `"` or `]` and the member name has no `[`. */
  lemma ReadLineFormat(wa: string, nation: string, rest: string)
    requires '"' !in wa && ']' !in wa && '[' !in nation
    ensures ReadLine(AnchorText + wa + "\"]" + nation + "[" + rest) == Some((nation, wa))
  {
    AnchorFound(wa, nation, rest);
    NameFound(wa, nation, rest);
  }

  lemma AnchorFound(wa: string, nation: string, rest: string)
    requires '"' !in wa
    ensures GroupLazy(AnchorText + wa + "\"]" + nation + "[" + rest, AnchorOpen, AnchorClose) == Some(wa)
  {
    var tail := "\"]" + nation + "[" + rest;
    assert AnchorText + wa + "\"]" + nation + "[" + rest == AnchorText + wa + tail;
    AnchorThen(wa, tail);
  }

  /** The WA group runs from the anchor's text to the `"]` that follows the name. */
  lemma AnchorThen(wa: string, tail: string)
    requires '"' !in wa && |tail| >= 2 && tail[0] == '"' && tail[1] == ']'
    ensures GroupLazy(AnchorText + wa + tail, AnchorOpen, AnchorClose) == Some(wa)
  {
    var line := AnchorText + wa + tail;
    var n := |AnchorText|;
    var k := n + |wa|;
    assert forall m :: 0 <= m < n ==> line[m] == AnchorText[m];
    AnchorOpensLine(line);
    assert forall j :: n <= j < k ==> line[j] == wa[j - n];
    assert line[k] == '"' && line[k + 1] == ']';
    AnchorClosesAt(line, n, k);
    SearchLazyFound(line, AnchorOpen, AnchorClose, 0, 0, k);
    assert line[n..k] == wa;
  }

  /** A line that starts with the anchor's text matches the anchor first at 0. */
  lemma AnchorOpensLine(line: string)
    requires |AnchorText| <= |line| && forall m :: 0 <= m < |AnchorText| ==> line[m] == AnchorText[m]
    ensures |AnchorOpen| == |AnchorText| && FirstMatch(line, AnchorOpen, 0) == Some(0)
  {
    AnchorOpenMatchesText();
    assert MatchesAt(line, AnchorOpen, 0);
    FirstMatchAt(line, AnchorOpen, 0, 0);
  }

  /** The first `"]` from `n` on is at the first `"`, when a `]` follows it. */
  lemma AnchorClosesAt(line: string, n: nat, k: nat)
    requires n <= k && k + 1 < |line| && line[k] == '"' && line[k + 1] == ']'
    requires forall j :: n <= j < k ==> line[j] != '"'
    ensures FirstMatch(line, AnchorClose, n) == Some(k)
  {
    assert AnchorClose[0] == Lit('"') && AnchorClose[1] == Lit(']');
    assert MatchesAt(line, AnchorClose, k);
    FirstMatchAt(line, AnchorClose, n, k);
  }

  lemma AnchorTextUnbracketed()
    ensures forall m :: 0 <= m < |AnchorText| ==> AnchorText[m] != ']'
  {
    assert ']' !in AnchorScheme && ']' !in AnchorHost && ']' !in AnchorPath;
    assert ']' !in AnchorText;
  }

  lemma NameFound(wa: string, nation: string, rest: string)
    requires ']' !in wa && '[' !in nation
    ensures GroupLazy(AnchorText + wa + "\"]" + nation + "[" + rest, NameOpen, NameClose) == Some(nation)
  {
    var front := AnchorText + wa + "\"]";
    var n := |AnchorText|;
    AnchorTextUnbracketed();
    forall j | 0 <= j < |front| - 1 ensures front[j] != ']' {
      if j < n {
        assert front[j] == AnchorText[j];
      } else if j < |front| - 2 {
        assert front[j] == wa[j - n];
      } else {
        assert front[j] == '"';
      }
    }
    assert front[|front| - 1] == ']';
    NameAfter(front, nation, rest);
  }

  /** After text whose only ']' ends it, the name group is the text up to the next '['. */
  lemma NameAfter(front: string, nation: string, rest: string)
    requires |front| >= 1 && front[|front| - 1] == ']'
    requires forall j :: 0 <= j < |front| - 1 ==> front[j] != ']'
    requires '[' !in nation
    ensures GroupLazy(front + nation + "[" + rest, NameOpen, NameClose) == Some(nation)
  {
    var line := front + nation + "[" + rest;
    var k := |front| - 1;
    var e := k + 1 + |nation|;
    assert NameOpen == Literal([']']) && NameClose == Literal(['[']);
    forall j | 0 <= j < k ensures line[j] != ']' {
      assert line[j] == front[j];
    }
    assert line[k] == ']';
    FirstCharMatch(line, ']', 0, k);
    forall j | k + 1 <= j < e ensures line[j] != '[' {
      assert line[j] == nation[j - k - 1];
    }
    assert line[e] == '[';
    FirstCharMatch(line, '[', k + 1, e);
    SearchLazyFound(line, NameOpen, NameClose, 0, k, e);
    assert line[k + 1..e] == nation;
  }
}

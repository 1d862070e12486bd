/**
 * Delegacy changes during an update (search/update.py and the older
 * update.py): the time window the happenings are asked for, the filter on
 * "WA Delegate", and the rewriting of `@@nation@@` and `%%region%%` markers
 * into links.  The world happenings shard is an oracle from the query to
 * the happenings it returns, and "now" is a parameter.
 */
module Update {
  import opened Outcomes
  import opened Strings
  import opened Models
  import opened Patterns
  import opened World
  import opened Core

  /** Twelve hours, in seconds. */
  const DefaultSpan := 12 * 3600

  /** The window of search/update.py: an absent end is start + duration when
      both are given, else now; an absent start is end − duration, or end −
      twelve hours without a duration. */
  function Window(now: int, start: Option<int>, end: Option<int>, duration: Option<int>): (w: (int, int))
    ensures start.Some? ==> w.0 == start.value
    ensures end.Some? ==> w.1 == end.value
    ensures end.None? && start.Some? && duration.Some? ==> w.1 == start.value + duration.value
    ensures end.None? && (start.None? || duration.None?) ==> w.1 == now
    ensures start.None? ==> w.1 - w.0 == (if duration.Some? then duration.value else DefaultSpan)
  {
    var e := if end.Some? then end.value
      else if start.Some? && duration.Some? then start.value + duration.value
      else now;
    var s := if start.Some? then start.value
      else if duration.Some? then e - duration.value
      else e - DefaultSpan;
    (s, e)
  }

  /** With all three given, the duration is ignored. */
  lemma WindowIgnoresDuration(now: int, s: int, e: int, d: Option<int>)
    ensures Window(now, Some(s), Some(e), d) == (s, e) == Window(now, Some(s), Some(e), None)
  {
  }

  /** A duration given with at most one of the two ends is the window's length. */
  lemma WindowLength(now: int, start: Option<int>, end: Option<int>, d: int)
    requires start.None? || end.None?
    ensures var w := Window(now, start, end, Some(d)); w.1 - w.0 == d
  {
  }

  /** The window of update.py: a falsy end is now, a falsy start is twelve hours before the end. */
  function LegacyWindow(now: int, start: Option<int>, end: Option<int>): (w: (int, int))
    ensures !Falsy(end) ==> w.1 == end.value
    ensures Falsy(end) ==> w.1 == now
    ensures !Falsy(start) ==> w.0 == start.value
    ensures Falsy(start) ==> w.0 == w.1 - DefaultSpan
  {
    var e := if Falsy(end) then now else end.value;
    var s := if Falsy(start) then e - DefaultSpan else start.value;
    (s, e)
  }

  /** An explicit 0 counts as absent in the older script. */
  lemma LegacyWindowZero(now: int, start: Option<int>, end: Option<int>)
    ensures LegacyWindow(now, Some(0), end) == LegacyWindow(now, None, end)
    ensures LegacyWindow(now, start, Some(0)) == LegacyWindow(now, start, None)
  {
  }

  /** Without zeros and without a duration both scripts choose the same window. */
  lemma LegacyWindowAgrees(now: int, start: Option<int>, end: Option<int>)
    requires start != Some(0) && end != Some(0)
    ensures LegacyWindow(now, start, end) == Window(now, start, end, None)
  {
  }

  predicate IsDelegateChange(h: Happening) {
    Contains(h.text, "WA Delegate")
  }

  /** The happenings whose text contains "WA Delegate", in their order. */
  function DelegateChanges(hs: seq<Happening>): (r: seq<Happening>)
    ensures |r| <= |hs|
    ensures forall h :: h in r <==> h in hs && IsDelegateChange(h)
  {
    if hs == [] then []
    else
      var init := hs[..|hs| - 1];
      assert hs == init + [hs[|hs| - 1]];
      DelegateChanges(init) + (if IsDelegateChange(hs[|hs| - 1]) then [hs[|hs| - 1]] else [])
  }

  /** The filter works piece by piece, so it keeps the original order. */
  lemma {:induction false} DelegateChangesAppend(a: seq<Happening>, b: seq<Happening>)
    ensures DelegateChanges(a + b) == DelegateChanges(a) + DelegateChanges(b)
    decreases |b|
  {
    if b != [] {
      var n := |b| - 1;
      DelegateChangesAppend(a, b[..n]);
      assert (a + b)[..|a + b| - 1] == a + b[..n];
      assert (a + b)[|a + b| - 1] == b[n];
    } else {
      assert a + b == a;
    }
  }

  /** `delegacy` of search/update.py: of the "member" happenings of the
      window, those whose text mentions "WA Delegate". */
  function Delegacy(world: Query -> seq<Happening>, now: int,
                    start: Option<int>, end: Option<int>, duration: Option<int>): (r: seq<Happening>)
    ensures var w := Window(now, start, end, duration);
      var asked := world(TimeQuery(w.0, w.1, "member"));
      |r| <= |asked| && forall h :: h in r <==> h in asked && Contains(h.text, "WA Delegate")
  {
    var w := Window(now, start, end, duration);
    DelegateChanges(world(TimeQuery(w.0, w.1, "member")))
  }

  /** `delegacy` of update.py: the same filter over the older window. */
  function LegacyDelegacy(world: Query -> seq<Happening>, now: int, start: Option<int>, end: Option<int>): (r: seq<Happening>)
    ensures var w := LegacyWindow(now, start, end);
      var asked := world(TimeQuery(w.0, w.1, "member"));
      |r| <= |asked| && forall h :: h in r <==> h in asked && Contains(h.text, "WA Delegate")
  {
    var w := LegacyWindow(now, start, end);
    DelegateChanges(world(TimeQuery(w.0, w.1, "member")))
  }

  /** Without zeros the two scripts send the same query and keep the same happenings. */
  lemma DelegacyAgrees(world: Query -> seq<Happening>, now: int, start: Option<int>, end: Option<int>)
    requires start != Some(0) && end != Some(0)
    ensures LegacyDelegacy(world, now, start, end) == Delegacy(world, now, start, end, None)
  {
    LegacyWindowAgrees(now, start, end);
  }

  // ---- write_output ----

  const Header := "Delegacy changes in the last twelve hours"

  function NationUrl(g: string): string {
    NationLink + g
  }

  function RegionUrl(g: string): string {
    RegionLink + g
  }

  /** A happening text with its nations, then its regions, turned into
      links.  The links hold no newline, so a one-line text stays one line,
      and a text without markers is written as it is. */
  function Linked(text: string): (r: string)
    ensures '\n' !in text ==> '\n' !in r
    ensures '@' !in text && '%' !in text ==> r == text
  {
    var nations := SubLazy(text, NationMarks, NationMarks, NationUrl);
    var r := SubLazy(nations, RegionMarks, RegionMarks, RegionUrl);
    assert '\n' !in text ==> '\n' !in r by {
      if '\n' !in text {
        NationLinkPlain();
        RegionLinkPlain();
        SubLazyAvoids(text, NationMarks, NationMarks, NationUrl, '\n');
        SubLazyAvoids(nations, RegionMarks, RegionMarks, RegionUrl, '\n');
      }
    }
    assert '@' !in text && '%' !in text ==> r == text by {
      if '@' !in text && '%' !in text {
        SubDelimitedNone(text, '@', NationUrl);
        SubDelimitedNone(text, '%', RegionUrl);
      }
    }
    r
  }

  /** What `write_output` writes: the header line, then the linked texts
      joined by newlines, and a final newline. */
  function WriteOutput(results: seq<Happening>): (r: string)
    ensures |r| >= |Header| + 2 && r[..|Header| + 1] == Header + "\n" && r[|r| - 1] == '\n'
  {
    var body := Join(seq(|results|, i requires 0 <= i < |results| => Linked(results[i].text)), "\n");
    assert (Header + "\n" + body + "\n")[..|Header| + 1] == Header + "\n";
    Header + "\n" + body + "\n"
  }

  /** The URL prefixes hold neither marker character nor a newline. */
  lemma PrefixAvoids(c: char)
    requires c == '@' || c == '%' || c == '\n'
    ensures c !in NationLink && c !in RegionLink
  {
  }

  lemma NationLinkPlain()
    ensures '@' !in NationLink && '%' !in NationLink && '\n' !in NationLink
  {
    PrefixAvoids('@');
    PrefixAvoids('%');
    PrefixAvoids('\n');
  }

  lemma RegionLinkPlain()
    ensures '@' !in RegionLink && '%' !in RegionLink && '\n' !in RegionLink
  {
    PrefixAvoids('@');
    PrefixAvoids('%');
    PrefixAvoids('\n');
  }

  lemma HeaderOneLine()
    ensures '\n' !in Header
  {
  }

  /** A leading `@@x@@` becomes the nation link of `x`. */
  lemma NationLinked(x: string, rest: string)
    requires '@' !in x && '@' !in rest
    ensures SubLazy("@@" + x + "@@" + rest, NationMarks, NationMarks, NationUrl) == NationUrl(x) + rest
  {
    var empty: string := [];
    assert "@@" + x + "@@" + rest == empty + ['@', '@'] + x + ['@', '@'] + rest;
    assert NationMarks == Literal(['@', '@']);
    SubDelimited(empty, x, rest, '@', NationUrl);
    SubDelimitedNone(rest, '@', NationUrl);
    assert empty + NationUrl(x) == NationUrl(x);
  }

  /** A `%%y%%` after text without '%' becomes the region link of `y`. */
  lemma RegionLinked(a: string, y: string, rest: string)
    requires '%' !in a && '%' !in y && '%' !in rest
    ensures SubLazy(a + "%%" + y + "%%" + rest, RegionMarks, RegionMarks, RegionUrl) == a + RegionUrl(y) + rest
  {
    assert a + "%%" + y + "%%" + rest == a + ['%', '%'] + y + ['%', '%'] + rest;
    assert RegionMarks == Literal(['%', '%']);
    SubDelimited(a, y, rest, '%', RegionUrl);
    SubDelimitedNone(rest, '%', RegionUrl);
  }

  /** A character absent from two texts is absent from their concatenation. */
  lemma AvoidsAppend(c: char, a: string, b: string)
    requires c !in a && c !in b
    ensures c !in a + b
  {
    assert forall k :: 0 <= k < |a + b| ==> (a + b)[k] == if k < |a| then a[k] else b[k - |a|];
  }

  lemma AppendAssoc(p: string, q: string, r: string)
    ensures p + (q + r) == p + q + r
  {
  }

  /** A text naming a nation, then a region, as "@@Hexen 43@@ became WA
      Delegate of %%The Democracy Pact%%." does, gets the nation link and the
      region link in their places and keeps every other character. */
  lemma LinkedNationThenRegion(x: string, words: string, y: string, tail: string)
    requires '@' !in x && '@' !in words && '@' !in y && '@' !in tail
    requires '%' !in x && '%' !in words && '%' !in y && '%' !in tail
    ensures Linked("@@" + x + "@@" + words + "%%" + y + "%%" + tail) ==
      NationUrl(x) + words + RegionUrl(y) + tail
  {
    var rest := words + "%%" + y + "%%" + tail;
    assert '@' !in "%%";
    AvoidsAppend('@', words, "%%");
    AvoidsAppend('@', words + "%%", y);
    AvoidsAppend('@', words + "%%" + y, "%%");
    AvoidsAppend('@', words + "%%" + y + "%%", tail);
    assert "@@" + x + "@@" + words + "%%" + y + "%%" + tail == "@@" + x + "@@" + rest;
    NationLinked(x, rest);
    NationLinkPlain();
    var a := NationUrl(x) + words;
    AvoidsAppend('%', NationLink, x);
    AvoidsAppend('%', NationUrl(x), words);
    var u := NationUrl(x);
    AppendAssoc(u, words + "%%" + y + "%%", tail);
    AppendAssoc(u, words + "%%" + y, "%%");
    AppendAssoc(u, words + "%%", y);
    AppendAssoc(u, words, "%%");
    RegionLinked(a, y, tail);
  }

  /** Read back line by line, the output is the header, one linked line per
      happening, and the empty rest after the final newline. */
  lemma WriteOutputLines(results: seq<Happening>)
    requires |results| >= 1
    requires forall h <- results :: '\n' !in h.text
    ensures Split(WriteOutput(results), "\n") ==
      [Header] + seq(|results|, i requires 0 <= i < |results| => Linked(results[i].text)) + [""]
  {
    var lines := seq(|results|, i requires 0 <= i < |results| => Linked(results[i].text));
    forall i | 0 <= i < |lines| ensures '\n' !in lines[i] {
      assert results[i] in results;
    }
    JoinAppend([Header], lines, "\n");
    JoinAppend([Header] + lines, [""], "\n");
    assert Join([Header], "\n") == Header;
    assert Join([""], "\n") == "";
    HeaderOneLine();
    var pieces := [Header] + lines + [""];
    assert Join(pieces, "\n") == WriteOutput(results);
    forall p <- pieces ensures '\n' !in p {
      var k :| 0 <= k < |pieces| && pieces[k] == p;
      if 0 < k <= |lines| {
        assert p == lines[k - 1];
      }
    }
    assert "\n" == ['\n'];
    SplitJoin(pieces, '\n');
  }
}

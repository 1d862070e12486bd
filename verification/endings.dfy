/**
 * Endings ("ceased to exist" happenings) and the founders among them
 * (search/endings.py, and the window defaults of the older endings.py).
 * The world happenings shard and the region dump are inputs.
 */
module Endings {
  import opened Outcomes
  import opened Core
  import opened Dicts
  import opened Models
  import opened Patterns
  import opened World
  import opened Strings

  /** Twenty-four hours, in seconds. */
  const DefaultWindow := 24 * 3600

  /** A nation that ceased to exist and the region it was in. */
  datatype Ending = Ending(nation: string, region: string)

  /** The window of search/endings.py: a falsy `before` is now, a falsy
      `since` is a day before `before`. */
  function EndingsWindow(now: int, since: Option<int>, before: Option<int>): (w: (int, int))
    ensures !Falsy(before) ==> w.1 == before.value
    ensures Falsy(before) ==> w.1 == now
    ensures !Falsy(since) ==> w.0 == since.value
    ensures Falsy(since) ==> w.0 == w.1 - DefaultWindow
  {
    var beforetime := if Falsy(before) then now else before.value;
    var sincetime := if Falsy(since) then beforetime - DefaultWindow else since.value;
    (sincetime, beforetime)
  }

  /** The window of endings.py: a falsy `since` is a day before now, whatever `before` is. */
  function LegacyEndingsWindow(now: int, since: Option<int>, before: Option<int>): (w: (int, int))
    ensures !Falsy(before) ==> w.1 == before.value
    ensures Falsy(before) ==> w.1 == now
    ensures !Falsy(since) ==> w.0 == since.value
    ensures Falsy(since) ==> w.0 == now - DefaultWindow
  {
    var sincetime := if Falsy(since) then now - DefaultWindow else since.value;
    var beforetime := if Falsy(before) then now else before.value;
    (sincetime, beforetime)
  }

  /** The two windows differ only when `since` is falsy and `before` is not:
      the older script then counts the day back from now, not from `before`. */
  lemma EndingsWindowsAgree(now: int, since: Option<int>, before: Option<int>)
    ensures EndingsWindow(now, since, before) == LegacyEndingsWindow(now, since, before) <==>
      (Falsy(before) || !Falsy(since) || before.value == now)
  {
  }

  /** The query of the older script: the "cte" happenings between times that
      read back as the given `since` and `before`, a falsy `since` being a day
      before now and a falsy `before` now; `since` does not depend on `before`. */
  function LegacyEndingsQuery(now: int, since: Option<int>, before: Option<int>): (q: Query)
    ensures q.filter == "cte"
    ensures ParseInt(q.since) == Ok(if Falsy(since) then now - DefaultWindow else since.value)
    ensures ParseInt(q.before) == Ok(if Falsy(before) then now else before.value)
  {
    var w := LegacyEndingsWindow(now, since, before);
    TimeQuery(w.0, w.1, "cte")
  }

  /** `retrieve_endings` of endings.py returns the happenings as they come:
      the world's answer to one "cte" query whose times read back as the window. */
  function LegacyRetrieveEndings(world: Query -> seq<Happening>, now: int, since: Option<int>, before: Option<int>): (r: seq<Happening>)
    ensures exists q: Query ::
              && q.filter == "cte" && r == world(q)
              && ParseInt(q.since) == Ok(LegacyEndingsWindow(now, since, before).0)
              && ParseInt(q.before) == Ok(LegacyEndingsWindow(now, since, before).1)
  {
    var q := LegacyEndingsQuery(now, since, before);
    assert q.filter == "cte" && world(q) == world(q);
    world(q)
  }

  /** Whenever the two windows agree, the happenings the older script returns
      name exactly the endings the newer `retrieve_endings` returns. */
  lemma LegacyEndingsAgree(world: Query -> seq<Happening>, now: int, since: Option<int>, before: Option<int>)
    requires Falsy(before) || !Falsy(since) || before.value == now
    ensures var w := EndingsWindow(now, since, before);
      EndingsIn(LegacyRetrieveEndings(world, now, since, before)) == EndingsIn(world(TimeQuery(w.0, w.1, "cte")))
  {
    EndingsWindowsAgree(now, since, before);
  }

  /** `founder_endings` of endings.py has only its documentation and no
      statements, so whatever the window it returns None rather than a
      sequence of endings. */
  function LegacyFounderEndings(since: Option<int>, before: Option<int>): (r: Option<seq<Ending>>)
    ensures r.None?
  {
    None
  }

  /** The ending a happening text names: the greedy `@@(.*)@@` and
      `%%(.*)%%` groups, when both patterns match. */
  function EndingOf(text: string): (r: Option<Ending>)
    ensures r.Some? <==> SearchGreedy(text, NationMarks, NationMarks).Some? &&
                         SearchGreedy(text, RegionMarks, RegionMarks).Some?
    ensures r.Some? ==> Some(r.value.nation) == GroupGreedy(text, NationMarks, NationMarks)
    ensures r.Some? ==> Some(r.value.region) == GroupGreedy(text, RegionMarks, RegionMarks)
  {
    match (GroupGreedy(text, NationMarks, NationMarks), GroupGreedy(text, RegionMarks, RegionMarks))
    case (Some(nation), Some(region)) => Some(Ending(nation, region))
    case _ => None
  }

  /** A text with one nation and one region marked, and neither marker
      character outside them, names exactly that nation and region; the
      groups run from the first to the last delimiter of their kind. */
  lemma EndingOfMarked(text: string, a: string, x: string, b: string, d: string, y: string, e: string)
    requires text == a + "@@" + x + "@@" + b && '@' !in a && '@' !in b
    requires text == d + "%%" + y + "%%" + e && '%' !in d && '%' !in e
    ensures EndingOf(text) == Some(Ending(x, y))
  {
    assert "@@" == ['@', '@'] && "%%" == ['%', '%'];
    GroupGreedyDelimited(a, x, b, '@');
    GroupGreedyDelimited(d, y, e, '%');
    assert NationMarks == Literal(['@', '@']);
    assert RegionMarks == Literal(['%', '%']);
  }

  /** The ending of each happening, if any. */
  function Found(hs: seq<Happening>): (r: seq<Option<Ending>>)
    ensures |r| == |hs| && forall i :: 0 <= i < |hs| ==> r[i] == EndingOf(hs[i].text)
  {
    seq(|hs|, i requires 0 <= i < |hs| => EndingOf(hs[i].text))
  }

  /** The endings of the happenings, in happening order. */
  function EndingsIn(hs: seq<Happening>): seq<Ending> {
    Somes(Found(hs))
  }

  /** Endings are read happening by happening, so their order is the happenings' order. */
  lemma EndingsInAppend(a: seq<Happening>, b: seq<Happening>)
    ensures EndingsIn(a + b) == EndingsIn(a) + EndingsIn(b)
  {
    FoundAppend(a, b);
    SomesAppend(Found(a), Found(b));
  }

  lemma FoundAppend(a: seq<Happening>, b: seq<Happening>)
    ensures Found(a + b) == Found(a) + Found(b)
  {
    forall i | 0 <= i < |a + b| ensures Found(a + b)[i] == (Found(a) + Found(b))[i] {
      if i < |a| {
        assert (a + b)[i] == a[i];
      } else {
        assert (a + b)[i] == b[i - |a|];
      }
    }
  }

  /** One happening gives its ending, or nothing when a marker is missing. */
  lemma EndingsInOne(h: Happening)
    ensures EndingsIn([h]) == if EndingOf(h.text).Some? then [EndingOf(h.text).value] else []
  {
    assert Found([h]) == [] + [EndingOf(h.text)];
    SomesSnoc([], EndingOf(h.text));
  }

  /** The loop of `retrieve_endings`: an ending for every happening that
      names both a nation and a region, in order. */
  method CollectEndings(happenings: seq<Happening>) returns (output: seq<Ending>)
    ensures output == EndingsIn(happenings)
  {
    ghost var found := Found(happenings);
    output := [];
    var i := 0;
    while i < |happenings|
      invariant 0 <= i <= |happenings|
      invariant output == Somes(found[..i])
    {
      var nationMatch := GroupGreedy(happenings[i].text, NationMarks, NationMarks);
      var regionMatch := GroupGreedy(happenings[i].text, RegionMarks, RegionMarks);
      assert found[i] == EndingOf(happenings[i].text);
      assert found[..i + 1] == found[..i] + [found[i]];
      SomesSnoc(found[..i], found[i]);
      if nationMatch.Some? && regionMatch.Some? {
        output := output + [Ending(nationMatch.value, regionMatch.value)];
      }
      i := i + 1;
    }
    assert found[..|happenings|] == found;
  }

  /** `retrieve_endings` of search/endings.py: the endings among the "cte"
      happenings of the window. */
  method RetrieveEndings(world: Query -> seq<Happening>, now: int, since: Option<int>, before: Option<int>)
    returns (output: seq<Ending>)
    ensures var w := EndingsWindow(now, since, before);
      output == EndingsIn(world(TimeQuery(w.0, w.1, "cte")))
  {
    var w := EndingsWindow(now, since, before);
    output := CollectEndings(world(TimeQuery(w.0, w.1, "cte")));
  }

  // ---- founder_endings ----

  /** Ending `i` is the last one of its cleaned nation. */
  predicate LastOfNation(endings: seq<Ending>, i: int) {
    0 <= i < |endings| &&
    forall j :: i < j < |endings| ==> CleanFormat(endings[j].nation) != CleanFormat(endings[i].nation)
  }

  /** `endingRegions`: the cleaned nation of each ending mapped to its region.
      Its keys are exactly the cleaned ending nations, and a nation's region is
      that of its last ending. */
  function EndingRegions(endings: seq<Ending>): (r: Dict<string>)
    ensures forall q :: In(Plain, r, q) <==> exists i :: 0 <= i < |endings| && CleanFormat(endings[i].nation) == q
    ensures forall i :: LastOfNation(endings, i) ==> Get(Plain, r, CleanFormat(endings[i].nation)) == Ok(endings[i].region)
  {
    var pairs := seq(|endings|, i requires 0 <= i < |endings| => (CleanFormat(endings[i].nation), endings[i].region));
    assert forall q :: In(Plain, FromPairs(Plain, pairs), q) <==> exists i :: 0 <= i < |endings| && CleanFormat(endings[i].nation) == q by {
      forall q ensures In(Plain, FromPairs(Plain, pairs), q) <==> exists i :: 0 <= i < |endings| && CleanFormat(endings[i].nation) == q {
        FromPairsIn(Plain, pairs, q);
        if q in NormKeys(Plain, pairs) {
          var i :| 0 <= i < |pairs| && NormKeys(Plain, pairs)[i] == q;
          assert CleanFormat(endings[i].nation) == q;
        }
        if exists i :: 0 <= i < |endings| && CleanFormat(endings[i].nation) == q {
          var i :| 0 <= i < |endings| && CleanFormat(endings[i].nation) == q;
          assert NormKeys(Plain, pairs)[i] == q;
        }
      }
    }
    assert forall i :: LastOfNation(endings, i) ==>
      Get(Plain, FromPairs(Plain, pairs), CleanFormat(endings[i].nation)) == Ok(endings[i].region) by {
      forall i | LastOfNation(endings, i)
        ensures Get(Plain, FromPairs(Plain, pairs), CleanFormat(endings[i].nation)) == Ok(endings[i].region)
      {
        assert LastAssignment(Plain, pairs, CleanFormat(endings[i].nation), i);
        FromPairsLast(Plain, pairs, CleanFormat(endings[i].nation), i);
      }
    }
    FromPairs(Plain, pairs)
  }

  /** `e` is the ending of the cleaned founder of one of the regions. */
  predicate Founds(table: Dict<string>, regions: seq<RegionStandard>, e: Ending) {
    exists i :: 0 <= i < |regions| && e.nation == CleanFormat(regions[i].founder) &&
      Get(Plain, table, e.nation) == Ok(e.region)
  }

  /** The dump regions whose cleaned founder has an ending, as endings of that founder. */
  function FoundersIn(table: Dict<string>, regions: seq<RegionStandard>): (r: seq<Ending>)
    ensures |r| <= |regions|
    ensures forall e :: e in r <==> Founds(table, regions, e)
    decreases |regions|
  {
    if regions == [] then []
    else
      var rest := FoundersIn(table, regions[1..]);
      FoundsCons(table, regions);
      var founder := CleanFormat(regions[0].founder);
      if In(Plain, table, founder) then [Ending(founder, Get(Plain, table, founder).value)] + rest else rest
  }

  /** The first region, or one of the others. */
  lemma FoundsCons(table: Dict<string>, regions: seq<RegionStandard>)
    requires regions != []
    ensures forall e :: Founds(table, regions, e) <==>
      (e.nation == CleanFormat(regions[0].founder) && Get(Plain, table, e.nation) == Ok(e.region)) ||
      Founds(table, regions[1..], e)
  {
    forall e ensures Founds(table, regions, e) ==>
      (e.nation == CleanFormat(regions[0].founder) && Get(Plain, table, e.nation) == Ok(e.region)) ||
      Founds(table, regions[1..], e)
    {
      if Founds(table, regions, e) {
        var i :| 0 <= i < |regions| && e.nation == CleanFormat(regions[i].founder) &&
          Get(Plain, table, e.nation) == Ok(e.region);
        if i > 0 {
          assert regions[1..][i - 1] == regions[i];
        }
      }
    }
    forall e | Founds(table, regions[1..], e) ensures Founds(table, regions, e) {
      var i :| 0 <= i < |regions[1..]| && e.nation == CleanFormat(regions[1..][i].founder) &&
        Get(Plain, table, e.nation) == Ok(e.region);
      assert regions[i + 1] == regions[1..][i];
    }
  }

  /** A region's founder contributes an ending exactly when that cleaned founder has one. */
  lemma FoundersInOne(table: Dict<string>, region: RegionStandard)
    ensures var founder := CleanFormat(region.founder);
      FoundersIn(table, [region]) == if In(Plain, table, founder) then [Ending(founder, Get(Plain, table, founder).value)] else []
  {
    assert [region][1..] == [];
  }

  /** The generator runs over the dump in order: the endings of a
      concatenation are those of the first part, then those of the second, one
      per qualifying region (a founder of two such regions appears twice). */
  lemma {:induction false} FoundersInAppend(table: Dict<string>, a: seq<RegionStandard>, b: seq<RegionStandard>)
    ensures FoundersIn(table, a + b) == FoundersIn(table, a) + FoundersIn(table, b)
    decreases |a|
  {
    if a == [] {
      assert a + b == b;
    } else {
      assert (a + b)[1..] == a[1..] + b;
      FoundersInAppend(table, a[1..], b);
    }
  }

  /** `founder_endings` of search/endings.py: every ending it yields names the
      cleaned founder of some dump region, and carries a region of an ending of
      that nation. */
  function FounderEndings(endings: seq<Ending>, regions: seq<RegionStandard>): (r: seq<Ending>)
    ensures |r| <= |regions|
    ensures forall e :: e in r ==>
      (exists k :: 0 <= k < |regions| && CleanFormat(regions[k].founder) == e.nation) &&
      (exists i :: 0 <= i < |endings| && CleanFormat(endings[i].nation) == e.nation)
  {
    FoundersIn(EndingRegions(endings), regions)
  }

  /** A founder ending carries the region of the last ending of that nation. */
  lemma FounderEndingFound(endings: seq<Ending>, regions: seq<RegionStandard>, i: nat, k: nat)
    requires i < |endings| && k < |regions|
    requires CleanFormat(regions[k].founder) == CleanFormat(endings[i].nation)
    requires forall j :: i < j < |endings| ==> CleanFormat(endings[j].nation) != CleanFormat(endings[i].nation)
    ensures Ending(CleanFormat(endings[i].nation), endings[i].region) in FounderEndings(endings, regions)
  {
    assert Founds(EndingRegions(endings), regions, Ending(CleanFormat(endings[i].nation), endings[i].region));
  }

  /** Every founder ending comes from an ending of that nation and a region it founded. */
  lemma FounderEndingSource(endings: seq<Ending>, regions: seq<RegionStandard>, e: Ending)
    requires e in FounderEndings(endings, regions)
    ensures exists k :: 0 <= k < |regions| && CleanFormat(regions[k].founder) == e.nation
    ensures exists i :: 0 <= i < |endings| && CleanFormat(endings[i].nation) == e.nation && endings[i].region == e.region
  {
    var pairs := seq(|endings|, j requires 0 <= j < |endings| => (CleanFormat(endings[j].nation), endings[j].region));
    FromPairsValue(Plain, pairs, e.nation, e.region);
    var i :| 0 <= i < |pairs| && Norm(Plain, pairs[i].0) == Norm(Plain, e.nation) && pairs[i].1 == e.region;
    assert CleanFormat(endings[i].nation) == e.nation;
  }
}

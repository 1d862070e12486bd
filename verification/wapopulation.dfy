/**
 * The top regions by WA members and by delegate votes (wapopulation.py):
 * a dictionary from region name to its score is filled from the region
 * dump, the names are ranked by score, highest first, and the first 100
 * are printed.  The WA "members" shard and the dump are inputs.
 */
module WaPopulation {
  import opened Outcomes
  import opened Strings
  import opened Dicts
  import opened Models

  // ---- the score dictionaries ----

  /** What the first loop stores for a region: its nations that are WA members. */
  function WaEntry(region: RegionStandard, waMembers: set<string>): Option<(string, set<string>)> {
    Some((region.name, (set n | n in region.nations) * waMembers))
  }

  /** The WA member set read from the "members" shard. */
  function WaMembers(membersShard: string): set<string> {
    set m | m in Split(membersShard, ",")
  }

  /** `populations`: every region name of the dump, with its WA nations. */
  function PopulationsOf(dump: seq<RegionStandard>, waMembers: set<string>): Dict<set<string>> {
    FromPairs(Plain, PairsOf(dump, (r: RegionStandard) => WaEntry(r, waMembers)))
  }

  /** What the second loop stores for a region: its delegate's votes. */
  function VoteEntry(region: RegionStandard): Option<(string, int)> {
    Some((region.name, region.delegateVotes))
  }

  /** `votes`: every region name of the dump, with its delegate's votes. */
  function VotesOf(dump: seq<RegionStandard>): Dict<int> {
    FromPairs(Plain, PairsOf(dump, VoteEntry))
  }

  /** The keys of `populations` are the region names of the dump. */
  lemma PopulationsKeys(dump: seq<RegionStandard>, waMembers: set<string>, name: string)
    ensures In(Plain, PopulationsOf(dump, waMembers), name) <==> exists i :: 0 <= i < |dump| && dump[i].name == name
  {
    PairsOfIn(Plain, dump, (r: RegionStandard) => WaEntry(r, waMembers), name);
  }

  /** A name repeated in the dump keeps the WA nations of its last region. */
  lemma PopulationsLast(dump: seq<RegionStandard>, waMembers: set<string>, i: nat)
    requires i < |dump|
    requires forall j :: i < j < |dump| ==> dump[j].name != dump[i].name
    ensures Get(Plain, PopulationsOf(dump, waMembers), dump[i].name) ==
      Ok((set n | n in dump[i].nations) * waMembers)
  {
    var f := (r: RegionStandard) => WaEntry(r, waMembers);
    LastPairWins(Plain, dump, f, i, dump[i].name, (set n | n in dump[i].nations) * waMembers);
  }

  /** The keys of `votes` are the region names of the dump. */
  lemma VotesKeys(dump: seq<RegionStandard>, name: string)
    ensures In(Plain, VotesOf(dump), name) <==> exists i :: 0 <= i < |dump| && dump[i].name == name
  {
    PairsOfIn(Plain, dump, VoteEntry, name);
  }

  /** A name repeated in the dump keeps the votes of its last region. */
  lemma VotesLast(dump: seq<RegionStandard>, i: nat)
    requires i < |dump|
    requires forall j :: i < j < |dump| ==> dump[j].name != dump[i].name
    ensures Get(Plain, VotesOf(dump), dump[i].name) == Ok(dump[i].delegateVotes)
  {
    LastPairWins(Plain, dump, VoteEntry, i, dump[i].name, dump[i].delegateVotes);
  }

  /** The first loop of `top_regions_by_wa_members`. */
  method FillPopulations(dump: seq<RegionStandard>, waMembers: set<string>) returns (populations: Dict<set<string>>)
    ensures populations == PopulationsOf(dump, waMembers)
  {
    ghost var f := (r: RegionStandard) => WaEntry(r, waMembers);
    populations := [];
    var i := 0;
    while i < |dump|
      invariant 0 <= i <= |dump|
      invariant populations == FromPairs(Plain, PairsOf(dump[..i], f))
    {
      PairsOfNext(Plain, dump, f, i);
      var region := dump[i];
      populations := Put(Plain, populations, region.name, (set n | n in region.nations) * waMembers);
      i := i + 1;
    }
    assert dump[..|dump|] == dump;
  }

  /** The loop of `top_regions_by_delegate_votes`. */
  method FillVotes(dump: seq<RegionStandard>) returns (votes: Dict<int>)
    ensures votes == VotesOf(dump)
  {
    votes := [];
    var i := 0;
    while i < |dump|
      invariant 0 <= i <= |dump|
      invariant votes == FromPairs(Plain, PairsOf(dump[..i], VoteEntry))
    {
      PairsOfNext(Plain, dump, VoteEntry, i);
      var region := dump[i];
      votes := Put(Plain, votes, region.name, region.delegateVotes);
      i := i + 1;
    }
    assert dump[..|dump|] == dump;
  }

  // ---- the ranking ----

  /** A key with its sort key. */
  type Scored = (string, int)

  /** Each key of the dictionary with the score of its value, in key order. */
  function ScoredOf<V>(d: Dict<V>, score: V -> int): (r: seq<Scored>)
    ensures |r| == |d| && forall i :: 0 <= i < |d| ==> r[i] == (d[i].0, score(d[i].1))
  {
    seq(|d|, i requires 0 <= i < |d| => (d[i].0, score(d[i].1)))
  }

  /** Highest score first. */
  predicate Descending(s: seq<Scored>) {
    forall i, j :: 0 <= i < j < |s| ==> s[i].1 >= s[j].1
  }

  /** Places an entry after every entry whose score is not lower. */
  function InsertDesc(e: Scored, s: seq<Scored>): (r: seq<Scored>)
    ensures |r| == |s| + 1
    ensures multiset(r) == multiset(s) + multiset{e}
    decreases |s|
  {
    if s == [] then [e]
    else if s[0].1 >= e.1 then
      assert s == [s[0]] + s[1..];
      [s[0]] + InsertDesc(e, s[1..])
    else [e] + s
  }

  /** `sorted(keys, key=score, reverse=True)`: a stable sort, highest score
      first, given as insertion of each entry in turn. */
  function SortDesc(xs: seq<Scored>): (r: seq<Scored>)
    ensures multiset(r) == multiset(xs)
    decreases |xs|
  {
    if xs == [] then []
    else
      var n := |xs| - 1;
      assert xs == xs[..n] + [xs[n]];
      InsertDesc(xs[n], SortDesc(xs[..n]))
  }

  /** The entries with score `v`, in order. */
  function WithScore(s: seq<Scored>, v: int): seq<Scored>
    decreases |s|
  {
    if s == [] then [] else (if s[0].1 == v then [s[0]] else []) + WithScore(s[1..], v)
  }

  lemma {:induction false} WithScoreAppend(a: seq<Scored>, b: seq<Scored>, v: int)
    ensures WithScore(a + b, v) == WithScore(a, v) + WithScore(b, v)
    decreases |a|
  {
    if a == [] {
      assert a + b == b;
      assert WithScore(a, v) == [];
      assert [] + WithScore(b, v) == WithScore(b, v);
    } else {
      var rest := a[1..];
      var h := if a[0].1 == v then [a[0]] else [];
      assert a + b == [a[0]] + (rest + b);
      assert a == [a[0]] + rest;
      WithScoreCons(a[0], rest + b, v);
      WithScoreCons(a[0], rest, v);
      WithScoreAppend(rest, b, v);
      Regroup(h, WithScore(rest, v), WithScore(b, v));
    }
  }

  lemma {:induction false} WithScoreNone(s: seq<Scored>, v: int)
    requires forall i :: 0 <= i < |s| ==> s[i].1 != v
    ensures WithScore(s, v) == []
    decreases |s|
  {
    if s != [] {
      WithScoreNone(s[1..], v);
    }
  }

  /** An entry in front of a descending list whose scores it bounds. */
  lemma ConsDescending(x: Scored, r: seq<Scored>)
    requires Descending(r) && forall i :: 0 <= i < |r| ==> x.1 >= r[i].1
    ensures Descending([x] + r)
  {
    var s := [x] + r;
    forall i, j | 0 <= i < j < |s| ensures s[i].1 >= s[j].1 {
      assert s[j] == r[j - 1];
      if i > 0 {
        assert s[i] == r[i - 1];
      }
    }
  }

  /** A bound on every score of `s` and on `e` bounds every score of a
      list holding the same entries. */
  lemma BoundedBy(x: int, s: seq<Scored>, e: Scored, r: seq<Scored>)
    requires multiset(r) == multiset(s) + multiset{e}
    requires x >= e.1 && forall i :: 0 <= i < |s| ==> x >= s[i].1
    ensures forall i :: 0 <= i < |r| ==> x >= r[i].1
  {
    forall i | 0 <= i < |r| ensures x >= r[i].1 {
      assert r[i] in multiset(r);
      if r[i] != e {
        assert r[i] in multiset(s);
        assert r[i] in s;
      }
    }
  }

  /** Inserting into a descending list keeps it descending. */
  lemma {:induction false} InsertDescSorted(e: Scored, s: seq<Scored>)
    requires Descending(s)
    ensures Descending(InsertDesc(e, s))
    decreases |s|
  {
    if s == [] {
      assert InsertDesc(e, s) == [e];
    } else {
      InsertDescUnfold(e, s);
      if s[0].1 >= e.1 {
        var rest := s[1..];
        forall i, j | 0 <= i < j < |rest| ensures rest[i].1 >= rest[j].1 {
          assert rest[i] == s[i + 1] && rest[j] == s[j + 1];
        }
        InsertDescSorted(e, rest);
        forall i | 0 <= i < |rest| ensures s[0].1 >= rest[i].1 {
          assert rest[i] == s[i + 1];
        }
        BoundedBy(s[0].1, rest, e, InsertDesc(e, rest));
        ConsDescending(s[0], InsertDesc(e, rest));
      } else {
        forall i | 0 <= i < |s| ensures e.1 >= s[i].1 {
          assert i == 0 || s[0].1 >= s[i].1;
        }
        ConsDescending(e, s);
      }
    }
  }

  /** The entries of score `v` of a list with one more entry in front. */
  lemma WithScoreCons(x: Scored, s: seq<Scored>, v: int)
    ensures WithScore([x] + s, v) == (if x.1 == v then [x] else []) + WithScore(s, v)
  {
    assert ([x] + s)[1..] == s;
  }

  lemma InsertDescUnfold(e: Scored, s: seq<Scored>)
    requires s != []
    ensures s[0].1 >= e.1 ==> InsertDesc(e, s) == [s[0]] + InsertDesc(e, s[1..])
    ensures s[0].1 < e.1 ==> InsertDesc(e, s) == [e] + s
  {
  }

  lemma Regroup(h: seq<Scored>, a: seq<Scored>, t: seq<Scored>)
    ensures h + (a + t) == (h + a) + t
  {
  }

  /** Inserting into a descending list puts the new entry after the
      entries of its score: their order is kept. */
  lemma {:induction false} InsertDescStable(e: Scored, s: seq<Scored>, v: int)
    requires Descending(s)
    ensures WithScore(InsertDesc(e, s), v) == WithScore(s, v) + (if e.1 == v then [e] else [])
    decreases |s|
  {
    var tail := if e.1 == v then [e] else [];
    if s == [] {
      WithScoreCons(e, [], v);
      assert [e] + [] == [e];
    } else {
      InsertDescUnfold(e, s);
      var h := if s[0].1 == v then [s[0]] else [];
      var rest := s[1..];
      assert [s[0]] + rest == s;
      WithScoreCons(s[0], rest, v);
      if s[0].1 >= e.1 {
        var inserted := InsertDesc(e, rest);
        InsertDescStable(e, rest, v);
        WithScoreCons(s[0], inserted, v);
        Regroup(h, WithScore(rest, v), tail);
      } else {
        InsertFrontStable(e, s, v);
      }
    }
  }

  /** An entry with a higher score than all of a descending list goes in
      front, and still after the entries of its own score, of which there
      are none. */
  lemma InsertFrontStable(e: Scored, s: seq<Scored>, v: int)
    requires Descending(s) && s != [] && s[0].1 < e.1
    ensures WithScore([e] + s, v) == WithScore(s, v) + (if e.1 == v then [e] else [])
  {
    WithScoreCons(e, s, v);
    if e.1 == v {
      forall i | 0 <= i < |s| ensures s[i].1 != v {
        assert i == 0 || s[0].1 >= s[i].1;
      }
      WithScoreNone(s, v);
      assert [e] + [] == [] + [e];
    } else {
      assert [] + WithScore(s, v) == WithScore(s, v) + [];
    }
  }

  /** The ranking is highest score first. */
  lemma {:induction false} SortDescSorted(xs: seq<Scored>)
    ensures Descending(SortDesc(xs))
    decreases |xs|
  {
    if xs != [] {
      var n := |xs| - 1;
      SortDescSorted(xs[..n]);
      InsertDescSorted(xs[n], SortDesc(xs[..n]));
    }
  }

  /** The ranking is stable: the entries of each score are in their
      original order. */
  lemma {:induction false} SortDescStable(xs: seq<Scored>, v: int)
    ensures WithScore(SortDesc(xs), v) == WithScore(xs, v)
    decreases |xs|
  {
    if xs != [] {
      var n := |xs| - 1;
      var init := xs[..n];
      var last := xs[n];
      var tail := if last.1 == v then [last] else [];
      var sorted := SortDesc(init);
      assert SortDesc(xs) == InsertDesc(last, sorted);
      SortDescStable(init, v);
      SortDescSorted(init);
      InsertDescStable(last, sorted, v);
      SnocParts(xs);
      WithScoreAppend(init, [last], v);
      WithScoreCons(last, [], v);
      assert [last] + [] == [last];
      assert WithScore([], v) == [];
      assert tail + [] == tail;
    }
  }

  /** Every ranked name is a key of the dictionary, and its score is the
      score of that key's value. */
  lemma RankedEntries<V>(d: Dict<V>, score: V -> int, e: Scored)
    requires Unique(Plain, d) && e in SortDesc(ScoredOf(d, score))
    ensures In(Plain, d, e.0) && Get(Plain, d, e.0).Ok? && score(Get(Plain, d, e.0).value) == e.1
  {
    var scored := ScoredOf(d, score);
    var sorted := SortDesc(scored);
    assert multiset(sorted) == multiset(scored);
    assert e in multiset(sorted);
    assert e in scored;
    var i :| 0 <= i < |scored| && scored[i] == e;
    GetAt(Plain, d, i);
  }

  // ---- the printed lines ----

  /** The number of ranks printed. */
  const Ranks := 100

  /** One printed line: `f"{name}: {score}"`. */
  function RankLine(e: Scored): string {
    e.0 + ": " + IntToString(e.1)
  }

  /** The lines printed before the loop ends, or raises IndexError at the
      first rank past the end of the ranking. */
  function RankLinesOf(ranked: seq<Scored>): (r: (seq<string>, Option<Error>))
    ensures |r.0| == if |ranked| < Ranks then |ranked| else Ranks
    ensures forall i :: 0 <= i < |r.0| ==> r.0[i] == RankLine(ranked[i])
    ensures r.1 == (if |ranked| < Ranks then Some(IndexError) else None)
  {
    var n := if |ranked| < Ranks then |ranked| else Ranks;
    (seq(n, i requires 0 <= i < n => RankLine(ranked[i])), if |ranked| < Ranks then Some(IndexError) else None)
  }

  /** `for rank in range(100): print(...)`. */
  method PrintRanks(ranked: seq<Scored>) returns (lines: seq<string>, error: Option<Error>)
    ensures (lines, error) == RankLinesOf(ranked)
  {
    ghost var spec := RankLinesOf(ranked).0;
    lines := [];
    var rank := 0;
    while rank < Ranks
      invariant 0 <= rank <= Ranks && rank <= |spec|
      invariant lines == spec[..rank]
    {
      if rank >= |ranked| {
        assert spec == lines;
        return lines, Some(IndexError);
      }
      lines := lines + [RankLine(ranked[rank])];
      rank := rank + 1;
    }
    assert spec == lines;
    return lines, None;
  }

  /** The lines printed for a ranked dictionary: 100 of them when it has at
      least 100 keys, else one per key and then IndexError. */
  lemma RankedLineCount<V>(d: Dict<V>, score: V -> int)
    ensures var (lines, error) := RankLinesOf(SortDesc(ScoredOf(d, score)));
      (|d| >= Ranks ==> |lines| == Ranks && error.None?) &&
      (|d| < Ranks ==> |lines| == |d| && error == Some(IndexError))
  {
    var scored := ScoredOf(d, score);
    assert |multiset(SortDesc(scored))| == |multiset(scored)|;
  }

  /** `name: count` for a region of `populations` and its number of WA nations. */
  ghost predicate WaMembersLine(line: string, populations: Dict<set<string>>) {
    exists name :: Get(Plain, populations, name).Ok? &&
      line == name + ": " + IntToString(|Get(Plain, populations, name).value|)
  }

  /** `name: votes` for a region of `votes` and its delegate's votes. */
  ghost predicate DelegateVotesLine(line: string, votes: Dict<int>) {
    exists name :: Get(Plain, votes, name).Ok? &&
      line == name + ": " + IntToString(Get(Plain, votes, name).value)
  }

  /** `top_regions_by_wa_members` as a value: 100 lines, or one per region
      name and then IndexError when the dump has fewer; each line is a region
      name with its number of WA nations. */
  function TopByWaMembersOf(dump: seq<RegionStandard>, membersShard: string): (r: (seq<string>, Option<Error>))
    ensures var d := PopulationsOf(dump, WaMembers(membersShard));
      (|d| >= Ranks ==> |r.0| == Ranks && r.1.None?) &&
      (|d| < Ranks ==> |r.0| == |d| && r.1 == Some(IndexError)) &&
      forall i :: 0 <= i < |r.0| ==> WaMembersLine(r.0[i], d)
  {
    var d := PopulationsOf(dump, WaMembers(membersShard));
    var score := (s: set<string>) => |s|;
    var ranked := SortDesc(ScoredOf(d, score));
    RankedLineCount(d, score);
    assert forall i :: 0 <= i < |RankLinesOf(ranked).0| ==> WaMembersLine(RankLinesOf(ranked).0[i], d) by {
      forall i | 0 <= i < |RankLinesOf(ranked).0| ensures WaMembersLine(RankLinesOf(ranked).0[i], d) {
        var e := ranked[i];
        RankedEntries(d, score, e);
        assert score(Get(Plain, d, e.0).value) == |Get(Plain, d, e.0).value|;
        assert RankLinesOf(ranked).0[i] == e.0 + ": " + IntToString(|Get(Plain, d, e.0).value|);
      }
    }
    RankLinesOf(ranked)
  }

  /** `top_regions_by_delegate_votes` as a value: the same shape, each line a
      region name with its delegate's votes. */
  function TopByDelegateVotesOf(dump: seq<RegionStandard>): (r: (seq<string>, Option<Error>))
    ensures var d := VotesOf(dump);
      (|d| >= Ranks ==> |r.0| == Ranks && r.1.None?) &&
      (|d| < Ranks ==> |r.0| == |d| && r.1 == Some(IndexError)) &&
      forall i :: 0 <= i < |r.0| ==> DelegateVotesLine(r.0[i], d)
  {
    var d := VotesOf(dump);
    var score := (v: int) => v;
    var ranked := SortDesc(ScoredOf(d, score));
    RankedLineCount(d, score);
    assert forall i :: 0 <= i < |RankLinesOf(ranked).0| ==> DelegateVotesLine(RankLinesOf(ranked).0[i], d) by {
      forall i | 0 <= i < |RankLinesOf(ranked).0| ensures DelegateVotesLine(RankLinesOf(ranked).0[i], d) {
        var e := ranked[i];
        RankedEntries(d, score, e);
        assert score(Get(Plain, d, e.0).value) == Get(Plain, d, e.0).value;
        assert RankLinesOf(ranked).0[i] == e.0 + ": " + IntToString(Get(Plain, d, e.0).value);
      }
    }
    RankLinesOf(ranked)
  }

  /** `top_regions_by_wa_members`. */
  method TopRegionsByWaMembers(dump: seq<RegionStandard>, membersShard: string) returns (lines: seq<string>, error: Option<Error>)
    ensures (lines, error) == TopByWaMembersOf(dump, membersShard)
  {
    var waMembers := WaMembers(membersShard);
    var populations := FillPopulations(dump, waMembers);
    var rankings := SortDesc(ScoredOf(populations, (s: set<string>) => |s|));
    lines, error := PrintRanks(rankings);
  }

  /** `top_regions_by_delegate_votes`. */
  method TopRegionsByDelegateVotes(dump: seq<RegionStandard>) returns (lines: seq<string>, error: Option<Error>)
    ensures (lines, error) == TopByDelegateVotesOf(dump)
  {
    var votes := FillVotes(dump);
    var rankings := SortDesc(ScoredOf(votes, (v: int) => v));
    lines, error := PrintRanks(rankings);
  }

}

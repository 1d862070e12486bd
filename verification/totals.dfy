/**
 * The totals per puppetmaster that the issue counters (cards/issuecounter.py
 * and issuecounter.py) print: each master starts at 0, and each puppet's
 * delta is added to the count of its master.
 */
module PuppetTotals {
  import opened Outcomes
  import opened Strings
  import opened Dicts

  /** `collected_count` before the loop: every master, in the order of the
      table's values, at 0. */
  function InitialCounts(puppets: Dict<string>): Dict<int> {
    FromPairs(Plain, seq(|puppets|, i requires 0 <= i < |puppets| => (puppets[i].1, 0)))
  }

  /** The masters are exactly the table's values, each at 0. */
  lemma InitialCountsZero(puppets: Dict<string>, m: string)
    ensures In(Plain, InitialCounts(puppets), m) <==> exists i :: 0 <= i < |puppets| && puppets[i].1 == m
    ensures In(Plain, InitialCounts(puppets), m) ==> Get(Plain, InitialCounts(puppets), m) == Ok(0)
  {
    var pairs := seq(|puppets|, i requires 0 <= i < |puppets| => (puppets[i].1, 0));
    FromPairsIn(Plain, pairs, m);
    if m in NormKeys(Plain, pairs) {
      var i :| 0 <= i < |pairs| && NormKeys(Plain, pairs)[i] == m;
      assert puppets[i].1 == m;
      FromPairsValue(Plain, pairs, m, Get(Plain, FromPairs(Plain, pairs), m).value);
    }
    if exists i :: 0 <= i < |puppets| && puppets[i].1 == m {
      var i :| 0 <= i < |puppets| && puppets[i].1 == m;
      assert NormKeys(Plain, pairs)[i] == m;
    }
  }

  /** The loop of `main` over the deltas: each delta is added to the count of
      its puppet's master; a puppet missing from the table raises KeyError. */
  function Tally(puppets: Dict<string>, start: Dict<int>, changes: Dict<int>): Result<Dict<int>>
    decreases |changes|
  {
    if changes == [] then Ok(start)
    else
      var counts :- Tally(puppets, start, changes[..|changes| - 1]);
      AddChange(puppets, counts, changes[|changes| - 1])
  }

  /** One step of the loop: the delta of a puppet added to its master's count. */
  function AddChange(puppets: Dict<string>, counts: Dict<int>, change: (string, int)): Result<Dict<int>> {
    var master :- Get(Plain, puppets, change.0);
    var count :- Get(Plain, counts, master);
    Ok(Put(Plain, counts, master, count + change.1))
  }

  /** A failure before a delta is the failure after it. */
  lemma TallyStops(puppets: Dict<string>, start: Dict<int>, changes: Dict<int>, j: nat)
    requires j < |changes| && Tally(puppets, start, changes[..j]).Err?
    ensures Tally(puppets, start, changes[..j + 1]) == Tally(puppets, start, changes[..j])
  {
    assert changes[..j + 1][..j] == changes[..j];
  }

  /** Once a prefix of the deltas fails, the whole loop fails the same way. */
  lemma TallyFail(puppets: Dict<string>, start: Dict<int>, changes: Dict<int>, k: nat)
    requires k <= |changes| && Tally(puppets, start, changes[..k]).Err?
    ensures Tally(puppets, start, changes) == Tally(puppets, start, changes[..k])
  {
    var j := k;
    while j < |changes|
      invariant k <= j <= |changes|
      invariant Tally(puppets, start, changes[..j]) == Tally(puppets, start, changes[..k])
    {
      TallyStops(puppets, start, changes, j);
      j := j + 1;
    }
    assert changes[..j] == changes;
  }

  /** Every master of the table has a count. */
  predicate MastersIn(puppets: Dict<string>, counts: Dict<int>) {
    forall i :: 0 <= i < |puppets| ==> In(Plain, counts, puppets[i].1)
  }

  /** The initial counts hold every master, once each. */
  lemma InitialCountsMasters(puppets: Dict<string>)
    ensures Unique(Plain, InitialCounts(puppets)) && MastersIn(puppets, InitialCounts(puppets))
  {
    forall i | 0 <= i < |puppets| ensures In(Plain, InitialCounts(puppets), puppets[i].1) {
      InitialCountsZero(puppets, puppets[i].1);
    }
  }

  /** The loop keeps the keys of the counts it starts from, in order. */
  lemma {:induction false} TallyKeys(puppets: Dict<string>, start: Dict<int>, changes: Dict<int>)
    requires Unique(Plain, start) && Tally(puppets, start, changes).Ok?
    ensures NormKeys(Plain, Tally(puppets, start, changes).value) == NormKeys(Plain, start)
    ensures Unique(Plain, Tally(puppets, start, changes).value)
    decreases |changes|
  {
    if changes != [] {
      TallyKeys(puppets, start, changes[..|changes| - 1]);
    }
  }

  /** A master of a listed puppet has a count. */
  lemma MasterCounted(puppets: Dict<string>, counts: Dict<int>, puppet: string)
    requires MastersIn(puppets, counts) && In(Plain, puppets, puppet)
    ensures In(Plain, counts, Get(Plain, puppets, puppet).value)
  {
    var m := Get(Plain, puppets, puppet).value;
    var i :| 0 <= i < |puppets| && puppets[i].0 == puppet && puppets[i].1 == m;
  }

  /** One more delta, once the earlier ones were counted and its puppet is
      listed: one more step from the counts so far, and that step finds the
      master's count. */
  lemma TallySnoc(puppets: Dict<string>, start: Dict<int>, changes: Dict<int>)
    requires Unique(Plain, start) && MastersIn(puppets, start) && changes != []
    requires Tally(puppets, start, changes[..|changes| - 1]).Ok? && In(Plain, puppets, changes[|changes| - 1].0)
    ensures var counts := Tally(puppets, start, changes[..|changes| - 1]).value;
      In(Plain, counts, Get(Plain, puppets, changes[|changes| - 1].0).value) &&
      Tally(puppets, start, changes) == AddChange(puppets, counts, changes[|changes| - 1])
  {
    var n := |changes| - 1;
    var counts := Tally(puppets, start, changes[..n]).value;
    var master := Get(Plain, puppets, changes[n].0).value;
    assert In(Plain, counts, master) by {
      TallyKeys(puppets, start, changes[..n]);
      MasterCounted(puppets, start, changes[n].0);
    }
  }

  /** One step reads back as the master's count grown by the delta, and
      every other count as before. */
  lemma AddChangeGet(puppets: Dict<string>, counts: Dict<int>, change: (string, int), q: string)
    requires Unique(Plain, counts)
    requires In(Plain, puppets, change.0) && In(Plain, counts, Get(Plain, puppets, change.0).value)
    ensures AddChange(puppets, counts, change).Ok?
    ensures NormKeys(Plain, AddChange(puppets, counts, change).value) == NormKeys(Plain, counts)
    ensures Get(Plain, AddChange(puppets, counts, change).value, q) ==
      if q == Get(Plain, puppets, change.0).value then Ok(Get(Plain, counts, q).value + change.1) else Get(Plain, counts, q)
  {
    var master := Get(Plain, puppets, change.0).value;
    GetPut(Plain, counts, master, Get(Plain, counts, master).value + change.1, q);
  }

  /** Every puppet with a delta is in the table. */
  predicate AllListed(puppets: Dict<string>, changes: Dict<int>) {
    forall i :: 0 <= i < |changes| ==> In(Plain, puppets, changes[i].0)
  }

  lemma AllListedSnoc(puppets: Dict<string>, changes: Dict<int>)
    requires changes != []
    ensures AllListed(puppets, changes) <==>
      AllListed(puppets, changes[..|changes| - 1]) && In(Plain, puppets, changes[|changes| - 1].0)
  {
    var n := |changes| - 1;
    assert forall i :: 0 <= i < n ==> changes[..n][i] == changes[i];
  }

  /** The loop succeeds exactly when every puppet with a delta is in the table. */
  lemma {:induction false} TallyOk(puppets: Dict<string>, start: Dict<int>, changes: Dict<int>)
    requires Unique(Plain, start) && MastersIn(puppets, start)
    ensures Tally(puppets, start, changes).Ok? <==> AllListed(puppets, changes)
    decreases |changes|
  {
    if changes != [] {
      var n := |changes| - 1;
      var init := changes[..n];
      TallyOk(puppets, start, init);
      AllListedSnoc(puppets, changes);
      if Tally(puppets, start, init).Err? {
        assert Tally(puppets, start, changes).Err?;
      } else if !In(Plain, puppets, changes[n].0) {
        assert Tally(puppets, start, changes) == AddChange(puppets, Tally(puppets, start, init).value, changes[n]);
      } else {
        TallySnoc(puppets, start, changes);
        TallyKeys(puppets, start, init);
        AddChangeGet(puppets, Tally(puppets, start, init).value, changes[n], "");
      }
    }
  }

  /** The sum of the deltas of the puppets whose master is `m`. */
  function MasterTotal(puppets: Dict<string>, changes: Dict<int>, m: string): int
    decreases |changes|
  {
    if changes == [] then 0
    else
      var n := |changes| - 1;
      MasterTotal(puppets, changes[..n], m) + (if Get(Plain, puppets, changes[n].0) == Ok(m) then changes[n].1 else 0)
  }

  /** Each count grows by the sum of the deltas of the master's puppets. */
  lemma {:induction false} TallyTotal(puppets: Dict<string>, start: Dict<int>, changes: Dict<int>, m: string)
    requires Unique(Plain, start) && MastersIn(puppets, start) && In(Plain, start, m)
    requires Tally(puppets, start, changes).Ok?
    ensures Get(Plain, Tally(puppets, start, changes).value, m) == Ok(Get(Plain, start, m).value + MasterTotal(puppets, changes, m))
    decreases |changes|
  {
    if changes != [] {
      var n := |changes| - 1;
      var init := changes[..n];
      assert Tally(puppets, start, init).Ok?;
      assert In(Plain, puppets, changes[n].0);
      var counts := Tally(puppets, start, init).value;
      TallyTotal(puppets, start, init, m);
      TallyKeys(puppets, start, init);
      TallySnoc(puppets, start, changes);
      if Get(Plain, puppets, changes[n].0) == Ok(m) {
        AddChangeGet(puppets, counts, changes[n], m);
      } else {
        AddChangeGet(puppets, counts, changes[n], m);
      }
    }
  }

  /** `collected_count`: the loop from every master at 0. */
  function CollectedCount(puppets: Dict<string>, changes: Dict<int>): Result<Dict<int>> {
    Tally(puppets, InitialCounts(puppets), changes)
  }

  /** The totals exist exactly when every puppet with a delta is in the table. */
  lemma CollectedCountOk(puppets: Dict<string>, changes: Dict<int>)
    ensures CollectedCount(puppets, changes).Ok? <==> AllListed(puppets, changes)
  {
    InitialCountsMasters(puppets);
    TallyOk(puppets, InitialCounts(puppets), changes);
  }

  /** The masters counted are exactly the table's values. */
  lemma CollectedCountMasters(puppets: Dict<string>, changes: Dict<int>, m: string)
    requires CollectedCount(puppets, changes).Ok?
    ensures In(Plain, CollectedCount(puppets, changes).value, m) <==> exists i :: 0 <= i < |puppets| && puppets[i].1 == m
  {
    InitialCountsMasters(puppets);
    InitialCountsZero(puppets, m);
    TallyKeys(puppets, InitialCounts(puppets), changes);
  }

  /** Each master's count is the sum of its puppets' deltas, 0 when none of
      its puppets has one. */
  lemma CollectedCountTotal(puppets: Dict<string>, changes: Dict<int>, m: string)
    requires CollectedCount(puppets, changes).Ok? && In(Plain, CollectedCount(puppets, changes).value, m)
    ensures Get(Plain, CollectedCount(puppets, changes).value, m) == Ok(MasterTotal(puppets, changes, m))
  {
    InitialCountsMasters(puppets);
    InitialCountsZero(puppets, m);
    TotalFromZero(puppets, InitialCounts(puppets), changes, m);
  }

  /** From counts at 0, a master's count is the sum of its puppets' deltas. */
  lemma TotalFromZero(puppets: Dict<string>, start: Dict<int>, changes: Dict<int>, m: string)
    requires Unique(Plain, start) && MastersIn(puppets, start)
    requires Tally(puppets, start, changes).Ok? && In(Plain, Tally(puppets, start, changes).value, m)
    requires In(Plain, start, m) ==> Get(Plain, start, m) == Ok(0)
    ensures Get(Plain, Tally(puppets, start, changes).value, m) == Ok(MasterTotal(puppets, changes, m))
  {
    TallyKeys(puppets, start, changes);
    assert In(Plain, start, m);
    TallyTotal(puppets, start, changes, m);
    FromZero(Get(Plain, Tally(puppets, start, changes).value, m), Get(Plain, start, m), MasterTotal(puppets, changes, m));
  }

  lemma FromZero(g: Result<int>, initial: Result<int>, total: int)
    requires initial == Ok(0) && g == Ok(initial.value + total)
    ensures g == Ok(total)
  {
  }

  /** `collected_count[puppets[puppet]] += change`: KeyError for a puppet
      missing from the table. */
  method AddOne(puppets: Dict<string>, counts: Dict<int>, change: (string, int)) returns (r: Result<Dict<int>>)
    ensures r == AddChange(puppets, counts, change)
  {
    var master := Get(Plain, puppets, change.0);
    if master.Err? {
      return Err(master.error);
    }
    var count := Get(Plain, counts, master.value);
    if count.Err? {
      return Err(count.error);
    }
    return Ok(Put(Plain, counts, master.value, count.value + change.1));
  }

  /** The accumulation loop of `main`. */
  method CollectCounts(puppets: Dict<string>, changes: Dict<int>) returns (r: Result<Dict<int>>)
    ensures r == CollectedCount(puppets, changes)
  {
    var counts := InitialCounts(puppets);
    ghost var start := counts;
    var i := 0;
    while i < |changes|
      invariant 0 <= i <= |changes|
      invariant Tally(puppets, start, changes[..i]) == Ok(counts)
    {
      assert changes[..i + 1][..i] == changes[..i];
      var next := AddOne(puppets, counts, changes[i]);
      assert Tally(puppets, start, changes[..i + 1]) == next;
      if next.Err? {
        TallyFail(puppets, start, changes, i + 1);
        return next;
      }
      counts := next.value;
      i := i + 1;
    }
    assert changes[..|changes|] == changes;
    return Ok(counts);
  }

  /** A line of the output: the master and its count. */
  function OutputLine(master: string, count: int): string {
    master + "," + IntToString(count)
  }

  /** An output line reads back as its master and count when the master
      holds no comma. */
  lemma OutputLineRoundTrip(master: string, count: int)
    requires ',' !in master
    ensures SplitOnce(OutputLine(master, count), ",") == [master, IntToString(count)]
    ensures ParseInt(SplitOnce(OutputLine(master, count), ",")[1]) == Ok(count)
  {
    assert "," == [','];
    SplitOnceChar(master, ',', IntToString(count));
    ParseIntToString(count);
  }
}

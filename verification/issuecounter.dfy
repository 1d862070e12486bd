/**
 * Issue-count deltas (cards/issuecounter.py, and the older issuecounter.py):
 * the issues each listed nation answered between two nation dumps, the
 * nations that no longer exist at the end, the puppet-to-master map read
 * from a tab-separated table, the window of a "month" run, and the totals
 * per puppetmaster.  The dumps are inputs.
 */
module IssueCounter {
  import opened Outcomes
  import opened Strings
  import opened Core
  import opened Dicts
  import opened Models
  import opened Dates

  /** Whether a dump nation was asked for, by its own name or its cleaned name. */
  predicate Wanted(nations: seq<string>, name: string) {
    name in nations || CleanFormat(name) in nations
  }

  /** What a dump nation records: its issue count under its cleaned name
      (cards/issuecounter.py, `clean`) or its dump name (issuecounter.py),
      when it was asked for. */
  function Entry(nations: seq<string>, clean: bool, n: NationStandard): (r: Option<(string, int)>)
    ensures r.Some? <==> Wanted(nations, n.name)
    ensures r.Some? ==> r.value == ((if clean then CleanFormat(n.name) else n.name), n.issuesAnswered)
  {
    if Wanted(nations, n.name) then Some(((if clean then CleanFormat(n.name) else n.name), n.issuesAnswered)) else None
  }

  /** `starting` or `ending` after its dump loop. */
  function Recorded(dump: seq<NationStandard>, nations: seq<string>, clean: bool): Dict<int> {
    FromPairs(Plain, PairsOf(dump, n => Entry(nations, clean, n)))
  }

  /** One dump loop of `count_change`. */
  method RecordIssues(dump: seq<NationStandard>, nations: seq<string>, clean: bool) returns (counts: Dict<int>)
    ensures counts == Recorded(dump, nations, clean)
  {
    ghost var f := n => Entry(nations, clean, n);
    counts := [];
    var i := 0;
    while i < |dump|
      invariant 0 <= i <= |dump|
      invariant counts == FromPairs(Plain, PairsOf(dump[..i], f))
    {
      var nation := dump[i];
      assert dump[..i + 1][..i] == dump[..i];
      ghost var before := PairsOf(dump[..i], f);
      var entry := Entry(nations, clean, nation);
      if entry.Some? {
        assert PairsOf(dump[..i + 1], f) == before + [entry.value];
        FromPairsSnoc(Plain, before, entry.value);
        counts := Put(Plain, counts, entry.value.0, entry.value.1);
      } else {
        assert PairsOf(dump[..i + 1], f) == before + [];
        assert before + [] == before;
      }
      i := i + 1;
    }
    assert dump[..|dump|] == dump;
  }

  /** A nation is recorded exactly when some dump nation asked for has that
      key, and holds the count of the last such dump nation. */
  lemma RecordedKeys(dump: seq<NationStandard>, nations: seq<string>, clean: bool, q: string)
    ensures In(Plain, Recorded(dump, nations, clean), q) <==>
      exists i :: 0 <= i < |dump| && Wanted(nations, dump[i].name) &&
        (if clean then CleanFormat(dump[i].name) else dump[i].name) == q
  {
    PairsOfIn(Plain, dump, n => Entry(nations, clean, n), q);
  }

  lemma RecordedLast(dump: seq<NationStandard>, nations: seq<string>, clean: bool, i: nat)
    requires i < |dump| && Wanted(nations, dump[i].name)
    requires forall j :: i < j < |dump| && Wanted(nations, dump[j].name) ==>
      (if clean then CleanFormat(dump[j].name) else dump[j].name) != (if clean then CleanFormat(dump[i].name) else dump[i].name)
    ensures Get(Plain, Recorded(dump, nations, clean), if clean then CleanFormat(dump[i].name) else dump[i].name) ==
      Ok(dump[i].issuesAnswered)
  {
    var f := n => Entry(nations, clean, n);
    var p := f(dump[i]).value;
    LastPairWins(Plain, dump, f, i, p.0, p.1);
  }

  /** The listed nations missing from `ending`, in list order. */
  function Missing(ending: Dict<int>, nations: seq<string>): (r: seq<string>)
    ensures forall q :: q in r <==> q in nations && !In(Plain, ending, q)
    decreases |nations|
  {
    if nations == [] then []
    else
      var k := |nations| - 1;
      Missing(ending, nations[..k]) + (if In(Plain, ending, nations[k]) then [] else [nations[k]])
  }

  /** The loop over `nations`: a nation missing at the start starts from 0, and
      one missing at the end is popped and listed as invalid. */
  function Settle(starting: Dict<int>, ending: Dict<int>, nations: seq<string>): (r: (Dict<int>, seq<string>))
    decreases |nations|
  {
    if nations == [] then (starting, [])
    else
      var k := |nations| - 1;
      var (s, invalid) := Settle(starting, ending, nations[..k]);
      var n := nations[k];
      var s1 := if In(Plain, s, n) then s else Put(Plain, s, n, 0);
      PutIn(Plain, s, n, 0);
      if In(Plain, ending, n) then (s1, invalid) else (Pop(Plain, s1, n).value, invalid + [n])
  }

  /** The invalid nations are the listed nations missing at the end, in order. */
  lemma {:induction false} SettleInvalid(starting: Dict<int>, ending: Dict<int>, nations: seq<string>)
    ensures Settle(starting, ending, nations).1 == Missing(ending, nations)
    decreases |nations|
  {
    if nations != [] {
      SettleInvalid(starting, ending, nations[..|nations| - 1]);
    }
  }

  /** After the loop a listed nation is kept exactly when it exists at the
      end, with its starting count or 0; an unlisted key is untouched. */
  lemma {:induction false} SettleKeys(starting: Dict<int>, ending: Dict<int>, nations: seq<string>, q: string)
    requires Unique(Plain, starting)
    ensures Unique(Plain, Settle(starting, ending, nations).0)
    ensures In(Plain, Settle(starting, ending, nations).0, q) <==>
      if q in nations then In(Plain, ending, q) else In(Plain, starting, q)
    ensures q in nations && In(Plain, ending, q) ==>
      Get(Plain, Settle(starting, ending, nations).0, q) ==
        Ok(if In(Plain, starting, q) then Get(Plain, starting, q).value else 0)
    ensures q !in nations ==> Get(Plain, Settle(starting, ending, nations).0, q) == Get(Plain, starting, q)
    decreases |nations|
  {
    if nations != [] {
      var k := |nations| - 1;
      var init := nations[..k];
      assert nations == init + [nations[k]];
      SettleKeys(starting, ending, init, q);
      var s := Settle(starting, ending, init).0;
      var n := nations[k];
      GetPut(Plain, s, n, 0, q);
      var s1 := if In(Plain, s, n) then s else Put(Plain, s, n, 0);
      PutIn(Plain, s, n, 0);
      if !In(Plain, ending, n) && q != n {
        GetPop(Plain, s1, n, q);
      }
    }
  }

  /** The loop over `nations` of `count_change`. */
  method SettleNations(starting: Dict<int>, ending: Dict<int>, nations: seq<string>) returns (kept: Dict<int>, invalid: seq<string>)
    ensures (kept, invalid) == Settle(starting, ending, nations)
  {
    kept := starting;
    invalid := [];
    var i := 0;
    while i < |nations|
      invariant 0 <= i <= |nations|
      invariant (kept, invalid) == Settle(starting, ending, nations[..i])
    {
      var name := nations[i];
      assert nations[..i + 1][..i] == nations[..i];
      PutIn(Plain, kept, name, 0);
      if !In(Plain, kept, name) {
        kept := Put(Plain, kept, name, 0);
      }
      if !In(Plain, ending, name) {
        kept := Pop(Plain, kept, name).value;
        invalid := invalid + [name];
      }
      i := i + 1;
    }
    assert nations[..|nations|] == nations;
  }

  /** The delta of one kept nation: its count at the end minus its count at
      the start, under its cleaned name (cards/issuecounter.py) or its own
      (issuecounter.py); KeyError when it is missing at the end. */
  function DeltaOf(ending: Dict<int>, clean: bool, entry: (string, int)): (r: Result<(string, int)>)
    ensures r.Err? <==> !In(Plain, ending, entry.0)
    ensures r.Err? ==> r.error == KeyError(entry.0)
  {
    var e :- Get(Plain, ending, entry.0);
    Ok(((if clean then CleanFormat(entry.0) else entry.0), e - entry.1))
  }

  function DeltaList(kept: Dict<int>, ending: Dict<int>, clean: bool): (r: seq<Result<(string, int)>>)
    ensures |r| == |kept| && forall i :: 0 <= i < |kept| ==> r[i] == DeltaOf(ending, clean, kept[i])
  {
    seq(|kept|, i requires 0 <= i < |kept| => DeltaOf(ending, clean, kept[i]))
  }

  /** `delta`: the comprehension over the kept nations. */
  function Deltas(kept: Dict<int>, ending: Dict<int>, clean: bool): Result<Dict<int>> {
    var pairs :- Collect(DeltaList(kept, ending, clean));
    Ok(FromPairs(Plain, pairs))
  }

  /** What `count_change` computes from the two recorded dicts.  The invalid
      nations are the listed ones missing at the end, in order, and the only
      way it can fail is a KeyError reading the end counts. */
  function CountChangeFrom(starting: Dict<int>, ending: Dict<int>, nations: seq<string>, clean: bool): (r: Result<(Dict<int>, seq<string>)>)
    ensures r.Ok? ==> r.value.1 == Missing(ending, nations)
    ensures r.Err? ==> r.error.KeyError? && !In(Plain, ending, r.error.key)
  {
    SettleInvalid(starting, ending, nations);
    var (kept, invalid) := Settle(starting, ending, nations);
    var delta :- Deltas(kept, ending, clean);
    Ok((delta, invalid))
  }

  /** `count_change` as a value: the deltas and the invalid nations. */
  function CountChangeSpec(startDump: seq<NationStandard>, endDump: seq<NationStandard>, nations: seq<string>, clean: bool): Result<(Dict<int>, seq<string>)> {
    CountChangeFrom(Recorded(startDump, nations, clean), Recorded(endDump, nations, clean), nations, clean)
  }

  /** `count_change`. */
  method CountChange(startDump: seq<NationStandard>, endDump: seq<NationStandard>, nations: seq<string>, clean: bool)
    returns (r: Result<(Dict<int>, seq<string>)>)
    ensures r == CountChangeSpec(startDump, endDump, nations, clean)
  {
    var starting := RecordIssues(startDump, nations, clean);
    var ending := RecordIssues(endDump, nations, clean);
    var kept, invalid := SettleNations(starting, ending, nations);
    var delta := Deltas(kept, ending, clean);
    if delta.Err? {
      return Err(delta.error);
    }
    return Ok((delta.value, invalid));
  }

  /** Every listed name is already clean-formatted, as the cleaned keys of
      `puppets` are. */
  predicate CleanNames(nations: seq<string>) {
    forall n <- nations :: CleanFormat(n) == n
  }

  /** Every key of a recorded dict is a listed nation. */
  predicate Listed(d: Dict<int>, nations: seq<string>) {
    forall i :: 0 <= i < |d| ==> d[i].0 in nations
  }

  /** With clean-formatted names, every cleaned key recorded is a listed nation. */
  lemma RecordedListed(dump: seq<NationStandard>, nations: seq<string>)
    requires CleanNames(nations)
    ensures Listed(Recorded(dump, nations, true), nations)
  {
    var d := Recorded(dump, nations, true);
    forall i | 0 <= i < |d| ensures d[i].0 in nations {
      assert NormKeys(Plain, d)[i] == d[i].0;
      RecordedKeys(dump, nations, true, d[i].0);
    }
  }

  /** Every kept name is clean and exists at the end. */
  predicate KeptNames(kept: Dict<int>, ending: Dict<int>) {
    forall i :: 0 <= i < |kept| ==> In(Plain, ending, kept[i].0) && CleanFormat(kept[i].0) == kept[i].0
  }

  /** When every kept name exists at the end, every delta is computed: the
      kept name's end count minus its kept count. */
  lemma DeltaPairs(kept: Dict<int>, ending: Dict<int>)
    requires KeptNames(kept, ending)
    ensures Collect(DeltaList(kept, ending, true)).Ok?
    ensures var pairs := Collect(DeltaList(kept, ending, true)).value;
      |pairs| == |kept| && forall i :: 0 <= i < |kept| ==>
        pairs[i].0 == kept[i].0 && pairs[i].1 == Get(Plain, ending, kept[i].0).value - kept[i].1
  {
  }

  /** When every kept name is clean and exists at the end, the deltas hold
      exactly the kept names. */
  lemma DeltasClean(kept: Dict<int>, ending: Dict<int>, q: string)
    requires Unique(Plain, kept)
    requires KeptNames(kept, ending)
    ensures Deltas(kept, ending, true).Ok?
    ensures In(Plain, Deltas(kept, ending, true).value, q) <==> In(Plain, kept, q)
  {
    DeltaPairs(kept, ending);
    var pairs := Collect(DeltaList(kept, ending, true)).value;
    assert NormKeys(Plain, pairs) == NormKeys(Plain, kept);
    FromPairsDistinct(Plain, pairs);
    FromPairsIn(Plain, pairs, q);
  }

  /** ... and each holds its end count minus its kept count. */
  lemma DeltasCleanValue(kept: Dict<int>, ending: Dict<int>, i: nat)
    requires Unique(Plain, kept) && i < |kept|
    requires KeptNames(kept, ending)
    ensures Deltas(kept, ending, true).Ok?
    ensures Get(Plain, Deltas(kept, ending, true).value, kept[i].0) == Ok(Get(Plain, ending, kept[i].0).value - kept[i].1)
  {
    DeltaPairs(kept, ending);
    var pairs := Collect(DeltaList(kept, ending, true)).value;
    assert NormKeys(Plain, pairs) == NormKeys(Plain, kept);
    FromPairsDistinct(Plain, pairs);
    assert Deltas(kept, ending, true).value == pairs;
    GetAt(Plain, pairs, i);
    assert pairs[i].0 == kept[i].0;
    assert Get(Plain, pairs, kept[i].0) == Ok(pairs[i].1);
    assert pairs[i].1 == Get(Plain, ending, kept[i].0).value - kept[i].1;
    assert Get(Plain, Deltas(kept, ending, true).value, kept[i].0) == Ok(Get(Plain, ending, kept[i].0).value - kept[i].1);
  }

  /** With clean-formatted names, every nation kept after the loop over
      `nations` is clean and exists at the end. */
  lemma KeptClean(starting: Dict<int>, ending: Dict<int>, nations: seq<string>)
    requires CleanNames(nations)
    requires Unique(Plain, starting) && Listed(starting, nations)
    ensures Unique(Plain, Settle(starting, ending, nations).0)
    ensures KeptNames(Settle(starting, ending, nations).0, ending)
  {
    var kept := Settle(starting, ending, nations).0;
    SettleKeys(starting, ending, nations, "");
    forall i | 0 <= i < |kept| ensures In(Plain, ending, kept[i].0) && CleanFormat(kept[i].0) == kept[i].0 {
      GetAt(Plain, kept, i);
      SettleKeys(starting, ending, nations, kept[i].0);
    }
  }

  /** For clean-formatted names: the count succeeds, the invalid nations are
      the listed ones missing at the end, in order, and the deltas and the
      invalid nations partition the list. */
  lemma CountChangeFromClean(starting: Dict<int>, ending: Dict<int>, nations: seq<string>, q: string)
    requires CleanNames(nations)
    requires Unique(Plain, starting) && Listed(starting, nations)
    ensures var r := CountChangeFrom(starting, ending, nations, true);
      r.Ok? && r.value.1 == Missing(ending, nations) &&
      (In(Plain, r.value.0, q) <==> q in nations && q !in r.value.1)
  {
    var kept := Settle(starting, ending, nations).0;
    KeptClean(starting, ending, nations);
    SettleKeys(starting, ending, nations, q);
    SettleInvalid(starting, ending, nations);
    DeltasClean(kept, ending, q);
    if In(Plain, starting, q) {
      var j :| 0 <= j < |starting| && Norm(Plain, starting[j].0) == Norm(Plain, q);
    }
  }

  /** ... and each delta is the end count minus the start count, a nation
      missing at the start counting from 0. */
  lemma CountChangeFromValue(starting: Dict<int>, ending: Dict<int>, nations: seq<string>, q: string)
    requires CleanNames(nations)
    requires Unique(Plain, starting) && Listed(starting, nations)
    requires q in nations && In(Plain, ending, q)
    ensures var r := CountChangeFrom(starting, ending, nations, true);
      r.Ok? && Get(Plain, r.value.0, q) ==
        Ok(Get(Plain, ending, q).value - (if In(Plain, starting, q) then Get(Plain, starting, q).value else 0))
  {
    var kept := Settle(starting, ending, nations).0;
    KeptClean(starting, ending, nations);
    SettleKeys(starting, ending, nations, q);
    var i := EntryOf(kept, q);
    DeltasCleanValue(kept, ending, i);
    DeltaOfKept(CountChangeFrom(starting, ending, nations, true), Deltas(kept, ending, true).value, kept, starting, ending, q, i);
  }

  lemma DeltaOfKept(r: Result<(Dict<int>, seq<string>)>, d: Dict<int>, kept: Dict<int>, starting: Dict<int>, ending: Dict<int>, q: string, i: nat)
    requires r.Ok? && r.value.0 == d && In(Plain, ending, q)
    requires i < |kept| && kept[i].0 == q && Get(Plain, kept, q) == Ok(kept[i].1)
    requires Get(Plain, kept, q) == Ok(if In(Plain, starting, q) then Get(Plain, starting, q).value else 0)
    requires Get(Plain, d, kept[i].0) == Ok(Get(Plain, ending, kept[i].0).value - kept[i].1)
    ensures r.Ok? && Get(Plain, r.value.0, q) ==
        Ok(Get(Plain, ending, q).value - (if In(Plain, starting, q) then Get(Plain, starting, q).value else 0))
  {
  }

  /** The result `count_change` should have for nation `q`: it succeeds;
      the invalid nations are the listed ones missing at the end, in order;
      `q` has a delta exactly when it is listed and not invalid; and its
      delta is its end count minus its start count, a nation missing at the
      start counting from 0. */
  predicate ChangeCounted(r: Result<(Dict<int>, seq<string>)>, starting: Dict<int>, ending: Dict<int>, nations: seq<string>, q: string) {
    r.Ok? && r.value.1 == Missing(ending, nations) &&
    (In(Plain, r.value.0, q) <==> q in nations && q !in r.value.1) &&
    (In(Plain, r.value.0, q) ==>
       Get(Plain, r.value.0, q) ==
         Ok(Get(Plain, ending, q).value - (if In(Plain, starting, q) then Get(Plain, starting, q).value else 0)))
  }

  /** Both of the above, for any recorded dicts. */
  lemma CountChangeFromAll(starting: Dict<int>, ending: Dict<int>, nations: seq<string>, q: string)
    requires CleanNames(nations)
    requires Unique(Plain, starting) && Listed(starting, nations)
    ensures ChangeCounted(CountChangeFrom(starting, ending, nations, true), starting, ending, nations, q)
  {
    CountChangeFromClean(starting, ending, nations, q);
    if q in nations && In(Plain, ending, q) {
      CountChangeFromValue(starting, ending, nations, q);
    }
  }

  /** What `count_change` of cards/issuecounter.py promises for clean-formatted
      names: it succeeds; the invalid nations are the listed ones missing at
      the end, in order; the deltas and the invalid nations partition the
      list; and each delta is the end count minus the start count, a nation
      missing at the start counting from 0. */
  lemma CountChangeClean(startDump: seq<NationStandard>, endDump: seq<NationStandard>, nations: seq<string>, q: string)
    requires CleanNames(nations)
    ensures ChangeCounted(CountChangeSpec(startDump, endDump, nations, true),
                          Recorded(startDump, nations, true), Recorded(endDump, nations, true), nations, q)
  {
    RecordedListed(startDump, nations);
    CountChangeFromAll(Recorded(startDump, nations, true), Recorded(endDump, nations, true), nations, q);
  }

  lemma CleanAb()
    ensures CleanFormat("Ab") == "ab"
  {
    assert Lower("Ab") == "ab";
  }

  /** The start dump with one nation "Ab" records it under "Ab" or "ab". */
  lemma RecordedAb(n: NationStandard, clean: bool)
    requires n.name == "Ab"
    ensures Recorded([n], ["ab"], clean) == [(if clean then "ab" else "Ab", n.issuesAnswered)]
  {
    CleanAb();
    var f := x => Entry(["ab"], clean, x);
    assert [n][..0] == [];
    var p := (if clean then "ab" else "Ab", n.issuesAnswered);
    assert f(n) == Some(p);
    assert PairsOf([n], f) == [p];
    var none: Dict<int> := [];
    assert [p][..0] == none;
    assert NormKeys(Plain, none) == [];
    assert FromPairs(Plain, [p]) == Put(Plain, none, p.0, p.1);
    assert Put(Plain, none, p.0, p.1) == [p];
  }

  /** The raw key "Ab" is not the listed "ab": "ab" starts from 0 and is
      popped again, leaving "Ab" behind. */
  lemma SettleRaw(v: int)
    ensures Settle([("Ab", v)], [], ["ab"]) == ([("Ab", v)], ["ab"])
  {
    assert ["ab"][..0] == [];
    assert NormKeys(Plain, [("Ab", v)]) == ["Ab"];
    assert "Ab" != "ab";
    assert !In(Plain, [("Ab", v)], "ab");
    var s1 := Put(Plain, [("Ab", v)], "ab", 0);
    assert s1 == [("Ab", v), ("ab", 0)];
    assert NormKeys(Plain, s1) == ["Ab", "ab"];
    assert Find(["Ab", "ab"], "ab") == Some(1);
    assert s1[..1] + s1[2..] == [("Ab", v)];
    assert Pop(Plain, s1, "ab") == Ok([("Ab", v)]);
    var none: Dict<int> := [];
    assert NormKeys(Plain, none) == [];
    assert !In(Plain, none, "ab");
    var empty: seq<string> := [];
    assert Settle([("Ab", v)], none, []) == ([("Ab", v)], empty);
    assert empty + ["ab"] == ["ab"];
    assert Settle([("Ab", v)], none, ["ab"]) == (Pop(Plain, s1, "ab").value, empty + ["ab"]);
  }

  /** The cleaned key "ab" is the listed one: it is popped. */
  lemma SettleClean(v: int)
    ensures Settle([("ab", v)], [], ["ab"]) == ([], ["ab"])
  {
    assert ["ab"][..0] == [];
    assert NormKeys(Plain, [("ab", v)]) == ["ab"];
    assert Find(["ab"], "ab") == Some(0);
    assert [("ab", v)][..0] + [("ab", v)][1..] == [];
    assert Pop(Plain, [("ab", v)], "ab") == Ok([]);
    assert In(Plain, [("ab", v)], "ab");
    var none: Dict<int> := [];
    assert NormKeys(Plain, none) == [];
    assert !In(Plain, none, "ab");
    var empty: seq<string> := [];
    assert Settle([("ab", v)], none, []) == ([("ab", v)], empty);
    assert empty + ["ab"] == ["ab"];
    assert Settle([("ab", v)], none, ["ab"]) == (Pop(Plain, [("ab", v)], "ab").value, empty + ["ab"]);
  }

  /** issuecounter.py keys `starting` by the dump's own spelling: a listed
      cleaned name whose dump nation "Ab" ceased to exist before the end
      dump makes the delta comprehension raise KeyError instead of listing
      the nation as invalid. */
  lemma LegacyCountChangeCounterexample(n: NationStandard)
    requires n.name == "Ab"
    ensures CountChangeSpec([n], [], ["ab"], false) == Err(KeyError("Ab"))
  {
    RecordedAb(n, false);
    assert Recorded([], ["ab"], false) == [];
    SettleRaw(n.issuesAnswered);
    DeltasMissing(("Ab", n.issuesAnswered), false);
  }

  /** A kept nation missing from the ending counts makes the comprehension raise. */
  lemma DeltasMissing(entry: (string, int), clean: bool)
    ensures Deltas([entry], [], clean) == Err(KeyError(entry.0))
  {
    var rs := DeltaList([entry], [], clean);
    assert rs == [Err(KeyError(entry.0))];
    assert Collect(rs) == Err(KeyError(entry.0));
  }

  /** cards/issuecounter.py, on the same dumps, lists the nation as invalid. */
  lemma CleanCountChangeAb(n: NationStandard)
    requires n.name == "Ab"
    ensures CountChangeSpec([n], [], ["ab"], true) == Ok(([], ["ab"]))
  {
    RecordedAb(n, true);
    assert Recorded([], ["ab"], true) == [];
    SettleClean(n.issuesAnswered);
    assert DeltaList([], [], true) == [];
  }

  // ---- the puppet table ----

  /** One row of the tab-separated puppet table: the puppet and its master,
      the puppet itself when the second column is empty, both cleaned by
      cards/issuecounter.py; a row without a second column raises IndexError. */
  function PuppetEntry(row: seq<string>, clean: bool): (r: Result<(string, string)>)
    ensures r.Err? <==> |row| < 2
    ensures r.Err? ==> r.error == IndexError
    ensures r.Ok? ==> r.value.0 == (if clean then CleanFormat(row[0]) else row[0])
    ensures r.Ok? ==> r.value.1 == (if clean then CleanFormat(if row[1] != "" then row[1] else row[0])
                                    else if row[1] != "" then row[1] else row[0])
  {
    if |row| < 2 then Err(IndexError)
    else
      var puppet := if clean then CleanFormat(row[0]) else row[0];
      var master := if row[1] != "" then row[1] else row[0];
      Ok((puppet, if clean then CleanFormat(master) else master))
  }

  function PuppetEntries(rows: seq<seq<string>>, clean: bool): (r: seq<Result<(string, string)>>)
    ensures |r| == |rows| && forall i :: 0 <= i < |rows| ==> r[i] == PuppetEntry(rows[i], clean)
  {
    seq(|rows|, i requires 0 <= i < |rows| => PuppetEntry(rows[i], clean))
  }

  /** `puppets`: the comprehension over the rows, a later row for the same
      puppet overriding an earlier one. */
  function Puppets(rows: seq<seq<string>>, clean: bool): Result<Dict<string>> {
    var pairs :- Collect(PuppetEntries(rows, clean));
    Ok(FromPairs(Plain, pairs))
  }

  /** The table is read exactly when every row has two columns. */
  lemma PuppetsRead(rows: seq<seq<string>>, clean: bool)
    ensures Puppets(rows, clean).Ok? <==> forall j :: 0 <= j < |rows| ==> |rows[j]| >= 2
    ensures Puppets(rows, clean).Err? ==> Puppets(rows, clean).error == IndexError
  {
  }

  /** Each puppet maps to the master of its last row. */
  lemma PuppetsLast(rows: seq<seq<string>>, clean: bool, i: nat)
    requires Puppets(rows, clean).Ok? && i < |rows|
    requires forall j :: i < j < |rows| ==> PuppetEntry(rows[j], clean).value.0 != PuppetEntry(rows[i], clean).value.0
    ensures Get(Plain, Puppets(rows, clean).value, PuppetEntry(rows[i], clean).value.0) == Ok(PuppetEntry(rows[i], clean).value.1)
  {
    var pairs := Collect(PuppetEntries(rows, clean)).value;
    assert pairs[i] == PuppetEntry(rows[i], clean).value;
    assert forall j :: i < j < |pairs| ==> pairs[j] == PuppetEntry(rows[j], clean).value;
    assert LastAssignment(Plain, pairs, pairs[i].0, i);
    FromPairsLast(Plain, pairs, pairs[i].0, i);
  }

  /** Every puppet of the table is some row's first column. */
  lemma PuppetsKeys(rows: seq<seq<string>>, clean: bool, q: string)
    requires Puppets(rows, clean).Ok?
    ensures In(Plain, Puppets(rows, clean).value, q) <==>
      exists i :: 0 <= i < |rows| && (if clean then CleanFormat(rows[i][0]) else rows[i][0]) == q
  {
    var rs := PuppetEntries(rows, clean);
    CollectedKeys(rs, q);
    if exists i :: 0 <= i < |rows| && (if clean then CleanFormat(rows[i][0]) else rows[i][0]) == q {
      var i :| 0 <= i < |rows| && (if clean then CleanFormat(rows[i][0]) else rows[i][0]) == q;
      assert rs[i].value.0 == q;
    }
    if exists i :: 0 <= i < |rs| && rs[i].value.0 == q {
      var i :| 0 <= i < |rs| && rs[i].value.0 == q;
      assert rs[i] == PuppetEntry(rows[i], clean);
    }
  }

  /** The cleaned table has clean-formatted puppets, as `count_change` of
      cards/issuecounter.py expects. */
  lemma PuppetsClean(rows: seq<seq<string>>)
    requires Puppets(rows, true).Ok?
    ensures CleanNames(Keys(Puppets(rows, true).value))
  {
    var d := Puppets(rows, true).value;
    forall n <- Keys(d) ensures CleanFormat(n) == n {
      PuppetClean(rows, n);
    }
  }

  lemma PuppetClean(rows: seq<seq<string>>, n: string)
    requires Puppets(rows, true).Ok? && n in Keys(Puppets(rows, true).value)
    ensures CleanFormat(n) == n
  {
    var d := Puppets(rows, true).value;
    var k :| 0 <= k < |d| && Keys(d)[k] == n;
    assert NormKeys(Plain, d)[k] == n;
    PuppetsKeys(rows, true, n);
    var i :| 0 <= i < |rows| && CleanFormat(rows[i][0]) == n;
    CleanFormatIdempotent(rows[i][0]);
  }

  // ---- the dates of a run ----

  /** The month of the report and the two dump dates. */
  datatype Window = Window(month: Date, start: Date, end: Date)

  /** The "month" subcommand: the first day of the given `YYYY-MM` month,
      the last day of the month before it, and the last day of the month;
      `fromisoformat` refuses anything else, and the day before 0001-01-01
      overflows. */
  function MonthWindow(month: string): (r: Result<Window>)
    ensures r.Ok? <==> ParseIsoDate(month + "-01").Ok? && ParseIsoDate(month + "-01").value != Date(1, 1, 1)
    ensures r.Ok? ==> r.value.month == ParseIsoDate(month + "-01").value && r.value.month.day == 1
    ensures r.Ok? ==> Valid(r.value.start) && Valid(r.value.end)
    ensures r.Ok? ==> r.value.start.day == DaysInMonth(r.value.start.year, r.value.start.month) &&
                      NextDay(r.value.start) == r.value.month
    ensures r.Ok? ==> r.value.end.year == r.value.month.year && r.value.end.month == r.value.month.month &&
                      r.value.end.day == DaysInMonth(r.value.end.year, r.value.end.month)
  {
    var first :- ParseIsoDate(month + "-01");
    assert first.day == 1 by { ParsedFirst(month); }
    if first == Date(1, 1, 1) then Err(OverflowError)
    else
      MonthBoundary(first.year, first.month);
      Ok(Window(first, PrevDay(first), Date(first.year, first.month, DaysInMonth(first.year, first.month))))
  }

  /** A date read from `YYYY-MM-01` is a first of the month. */
  lemma ParsedFirst(month: string)
    requires ParseIsoDate(month + "-01").Ok?
    ensures ParseIsoDate(month + "-01").value.day == 1
  {
    var s := month + "-01";
    assert s[8..] == "01";
    Digits2Value("01");
  }

  /** The days after `start` up to and including `end` are exactly the days
      of the month. */
  lemma MonthWindowDays(month: string, d: Date)
    requires MonthWindow(month).Ok? && Valid(d)
    ensures var w := MonthWindow(month).value;
      (Before(w.start, d) && !Before(w.end, d)) <==> (d.year == w.month.year && d.month == w.month.month)
  {
    var w := MonthWindow(month).value;
    NextDayAdjacent(w.start, d);
  }

  /** Python's truth value of an optional string argument is false. */
  predicate Unset(arg: Option<string>) {
    arg.None? || arg.value == ""
  }

  /** The "dates" subcommand: the two given dates, and the report month given
      as `YYYY-MM` or, when it is empty or absent, the first of the end month. */
  function DatesWindow(start: string, end: string, month: Option<string>): (r: Result<Window>)
    ensures r.Ok? <==> ParseIsoDate(start).Ok? && ParseIsoDate(end).Ok? &&
                       (Unset(month) || ParseIsoDate(month.value + "-01").Ok?)
    ensures r.Ok? ==> r.value.start == ParseIsoDate(start).value && r.value.end == ParseIsoDate(end).value
    ensures r.Ok? && Unset(month) ==>
      r.value.month == Date(r.value.end.year, r.value.end.month, 1)
    ensures r.Ok? && !Unset(month) ==> r.value.month == ParseIsoDate(month.value + "-01").value
  {
    var s :- ParseIsoDate(start);
    var e :- ParseIsoDate(end);
    if Unset(month) then Ok(Window(Date(e.year, e.month, 1), s, e))
    else
      var m :- ParseIsoDate(month.value + "-01");
      Ok(Window(m, s, e))
  }
}

/**
 * The older roster checker (rosterupdate.py).  For every member of the
 * nation data it asks the API, through the WA-status parameter `wa`, which of
 * the member and its puppets are in the WA, and records the first one.  Its
 * output is keyed by `clean_format` of the member's name, as a plain `str`.
 */
module RosterCheck {
  import opened Outcomes
  import opened Strings
  import opened Core
  import opened Dicts
  import opened RosterUpdate
  import opened Sorting

  /** The WA puppets among `puppets`, in order; every puppet is asked. */
  function WaPuppets(wa: string -> Result<string>, puppets: seq<string>): Result<seq<string>>
    decreases |puppets|
  {
    if puppets == [] then Ok([])
    else
      var n := |puppets| - 1;
      var init :- WaPuppets(wa, puppets[..n]);
      var isWa :- IsWa(wa, puppets[n]);
      Ok(init + (if isWa then [puppets[n]] else []))
  }

  /** The `WAs` list: the member if it is in the WA, then its WA puppets. */
  function Candidates(wa: string -> Result<string>, nation: string, puppets: seq<string>): Result<seq<string>> {
    var self :- IsWa(wa, nation);
    var others :- WaPuppets(wa, puppets);
    Ok((if self then [nation] else []) + others)
  }

  /** The WA puppets are exactly the puppets the API reports in the WA. */
  lemma {:induction false} WaPuppetsSpec(wa: string -> Result<string>, puppets: seq<string>)
    requires WaPuppets(wa, puppets).Ok?
    ensures forall x :: x in WaPuppets(wa, puppets).value <==> x in puppets && IsWa(wa, x) == Ok(true)
    decreases |puppets|
  {
    if puppets != [] {
      var n := |puppets| - 1;
      WaPuppetsSpec(wa, puppets[..n]);
      assert puppets == puppets[..n] + [puppets[n]];
      forall x | x in puppets[..n] ensures IsWa(wa, x).Ok? {
        var j :| 0 <= j < n && puppets[..n][j] == x;
        WaPuppetsAsked(wa, puppets[..n], j);
      }
    }
  }

  /** Every puppet was asked about without error. */
  lemma {:induction false} WaPuppetsAsked(wa: string -> Result<string>, puppets: seq<string>, j: nat)
    requires WaPuppets(wa, puppets).Ok? && j < |puppets|
    ensures IsWa(wa, puppets[j]).Ok?
    decreases |puppets|
  {
    var n := |puppets| - 1;
    if j < n {
      WaPuppetsAsked(wa, puppets[..n], j);
    }
  }

  /** The candidates are the member, first, when it is in the WA, and the WA puppets. */
  lemma CandidatesSpec(wa: string -> Result<string>, nation: string, puppets: seq<string>)
    requires Candidates(wa, nation, puppets).Ok?
    ensures var c := Candidates(wa, nation, puppets).value;
      (IsWa(wa, nation) == Ok(true) ==> c[0] == nation) &&
      forall x :: x in c <==> (x == nation || x in puppets) && IsWa(wa, x) == Ok(true)
  {
    WaPuppetsSpec(wa, puppets);
  }

  /** `Result.wa` of a member whose `WAs` list is `c`: its cleaned first
      nation, or None when the list is empty. */
  function Outcome(c: seq<string>): (r: Option<string>)
    ensures r.None? <==> c == []
    ensures r.Some? ==> r.value == CleanFormat(c[0])
  {
    if c != [] then Some(CleanFormat(c[0])) else None
  }

  /** The `WAs` list, or the error, of every member, in order. */
  function Found(wa: string -> Result<string>, nations: Dict<seq<string>>): (r: seq<Result<seq<string>>>)
    ensures |r| == |nations|
    ensures forall i :: 0 <= i < |nations| ==> r[i] == Candidates(wa, nations[i].0, nations[i].1)
  {
    seq(|nations|, i requires 0 <= i < |nations| => Candidates(wa, nations[i].0, nations[i].1))
  }

  /** The loop of `check_roster` over members `names` whose `WAs` lists are
      `found`: the first error stops it; otherwise it ends with the output
      dictionary and the members warned about for having several WAs. */
  function Roster(names: seq<string>, found: seq<Result<seq<string>>>): Result<(Dict<Option<string>>, seq<string>)>
    requires |names| == |found|
    decreases |names|
  {
    if names == [] then Ok(([], []))
    else
      var n := |names| - 1;
      var init :- Roster(names[..n], found[..n]);
      var c :- found[n];
      Ok((Put(Plain, init.0, CleanFormat(names[n]), Outcome(c)), init.1 + (if |c| > 1 then [names[n]] else [])))
  }

  /** What `check_roster` computes for the nation data `nations`. */
  function CheckRosterSpec(wa: string -> Result<string>, nations: Dict<seq<string>>): Result<(Dict<Option<string>>, seq<string>)> {
    Roster(Keys(nations), Found(wa, nations))
  }

  /** The `WAs` list of one member, built as `check_roster` builds it. */
  method CollectWas(wa: string -> Result<string>, nation: string, puppets: seq<string>) returns (r: Result<seq<string>>)
    ensures r == Candidates(wa, nation, puppets)
  {
    var was: seq<string> := [];
    var self := IsWa(wa, nation);
    if self.Err? {
      return Err(self.error);
    }
    if self.value {
      was := [nation];
    }
    var j := 0;
    while j < |puppets|
      invariant 0 <= j <= |puppets|
      invariant WaPuppets(wa, puppets[..j]).Ok?
      invariant was == (if self.value then [nation] else []) + WaPuppets(wa, puppets[..j]).value
    {
      assert puppets[..j + 1][..j] == puppets[..j];
      var isWa := IsWa(wa, puppets[j]);
      if isWa.Err? {
        WaPuppetsFail(wa, puppets, j);
        return Err(isWa.error);
      }
      if isWa.value {
        was := was + [puppets[j]];
      }
      j := j + 1;
    }
    assert puppets[..j] == puppets;
    return Ok(was);
  }

  /** A failing question about puppet `j` fails the whole list, with that error. */
  lemma {:induction false} WaPuppetsFail(wa: string -> Result<string>, puppets: seq<string>, j: nat)
    requires j < |puppets| && WaPuppets(wa, puppets[..j]).Ok? && IsWa(wa, puppets[j]).Err?
    ensures WaPuppets(wa, puppets) == Err(IsWa(wa, puppets[j]).error)
    decreases |puppets|
  {
    var n := |puppets| - 1;
    if j < n {
      assert puppets[..n][..j] == puppets[..j];
      assert puppets[..n][j] == puppets[j];
      WaPuppetsFail(wa, puppets[..n], j);
    } else {
      assert puppets[..n] == puppets[..j];
    }
  }

  /** `check_roster`: a loop over the members recording each member's result. */
  method CheckRoster(wa: string -> Result<string>, nations: Dict<seq<string>>)
    returns (r: Result<Dict<Option<string>>>, warnings: seq<string>)
    ensures CheckRosterSpec(wa, nations).Ok? ==> r == Ok(CheckRosterSpec(wa, nations).value.0)
    ensures CheckRosterSpec(wa, nations).Ok? ==> warnings == CheckRosterSpec(wa, nations).value.1
    ensures CheckRosterSpec(wa, nations).Err? ==> r == Err(CheckRosterSpec(wa, nations).error)
  {
    ghost var names := Keys(nations);
    ghost var found := Found(wa, nations);
    var output: Dict<Option<string>> := [];
    warnings := [];
    var i := 0;
    while i < |nations|
      invariant 0 <= i <= |nations|
      invariant Roster(names[..i], found[..i]) == Ok((output, warnings))
    {
      var nation := nations[i].0;
      var was := CollectWas(wa, nation, nations[i].1);
      assert was == found[i] && nation == names[i];
      if was.Err? {
        RosterFail(names, found, i + 1);
        return Err(was.error), warnings;
      }
      RosterStep(names, found, i);
      var warning := if |was.value| > 1 then [nation] else [];
      warnings := warnings + warning;
      var result := if was.value != [] then Some(CleanFormat(was.value[0])) else None;
      output := Put(Plain, output, CleanFormat(nation), result);
      i := i + 1;
    }
    assert names[..i] == names && found[..i] == found;
    return Ok(output), warnings;
  }

  /** One more member adds its result, and its warning if it has several WAs. */
  lemma RosterStep(names: seq<string>, found: seq<Result<seq<string>>>, i: nat)
    requires |names| == |found| && i < |names|
    requires Roster(names[..i], found[..i]).Ok? && found[i].Ok?
    ensures var prior := Roster(names[..i], found[..i]).value;
      Roster(names[..i + 1], found[..i + 1]) ==
        Ok((Put(Plain, prior.0, CleanFormat(names[i]), Outcome(found[i].value)),
            prior.1 + (if |found[i].value| > 1 then [names[i]] else [])))
  {
    assert names[..i + 1][..i] == names[..i];
    assert found[..i + 1][..i] == found[..i];
  }

  /** An error for member `k - 1` is the error of the whole loop. */
  lemma RosterFail(names: seq<string>, found: seq<Result<seq<string>>>, k: nat)
    requires |names| == |found| && 0 < k <= |names|
    requires Roster(names[..k - 1], found[..k - 1]).Ok? && found[k - 1].Err?
    ensures Roster(names, found) == Err(found[k - 1].error)
  {
    RosterStops(names, found, k - 1);
    var j := k;
    while j < |names|
      invariant k <= j <= |names|
      invariant Roster(names[..j], found[..j]) == Err(found[k - 1].error)
    {
      RosterStops(names, found, j);
      j := j + 1;
    }
    assert names[..j] == names && found[..j] == found;
  }

  /** Once stopped, the loop stays stopped; an error stops it. */
  lemma RosterStops(names: seq<string>, found: seq<Result<seq<string>>>, j: nat)
    requires |names| == |found| && j < |names|
    ensures Roster(names[..j], found[..j]).Err? ==> Roster(names[..j + 1], found[..j + 1]) == Roster(names[..j], found[..j])
    ensures Roster(names[..j], found[..j]).Ok? && found[j].Err? ==> Roster(names[..j + 1], found[..j + 1]) == Err(found[j].error)
  {
    assert names[..j + 1][..j] == names[..j];
    assert found[..j + 1][..j] == found[..j];
  }

  /** The output has one key for each cleaned member name, and no other. */
  lemma {:induction false} RosterKeys(names: seq<string>, found: seq<Result<seq<string>>>, q: string)
    requires |names| == |found| && Roster(names, found).Ok?
    ensures Unique(Plain, Roster(names, found).value.0)
    ensures In(Plain, Roster(names, found).value.0, q) <==> exists i :: 0 <= i < |names| && CleanFormat(names[i]) == q
    decreases |names|
  {
    if names != [] {
      var n := |names| - 1;
      RosterUnfold(names, found);
      RosterKeys(names[..n], found[..n], q);
      var prior := Roster(names[..n], found[..n]).value.0;
      InPut(Plain, prior, CleanFormat(names[n]), Outcome(found[n].value), q);
      NamedBefore(names, n, q);
    }
  }

  /** A cleaned name occurs among the first `n + 1` names exactly when it
      occurs among the first `n` or is the cleaned name at `n`. */
  lemma NamedBefore(names: seq<string>, n: nat, q: string)
    requires n < |names|
    ensures (exists i :: 0 <= i <= n && CleanFormat(names[i]) == q) <==>
      (exists i :: 0 <= i < n && CleanFormat(names[..n][i]) == q) || CleanFormat(names[n]) == q
  {
    if exists i :: 0 <= i < n && CleanFormat(names[..n][i]) == q {
      var i :| 0 <= i < n && CleanFormat(names[..n][i]) == q;
      assert names[..n][i] == names[i];
    }
    if exists i :: 0 <= i <= n && CleanFormat(names[i]) == q {
      var i :| 0 <= i <= n && CleanFormat(names[i]) == q;
      if i < n {
        assert names[..n][i] == names[i];
      }
    }
  }

  /** The value under a cleaned name is the result of the last member with that name. */
  lemma RosterLast(names: seq<string>, found: seq<Result<seq<string>>>, i: nat)
    requires |names| == |found| && Roster(names, found).Ok? && i < |names|
    requires forall j :: i < j < |names| ==> CleanFormat(names[j]) != CleanFormat(names[i])
    ensures found[i].Ok?
    ensures Get(Plain, Roster(names, found).value.0, CleanFormat(names[i])) == Ok(Outcome(found[i].value))
  {
    RosterEntered(names, found, i);
    RosterKeptFrom(names, found, i + 1, CleanFormat(names[i]), Ok(Outcome(found[i].value)));
  }

  /** An entry made by member `k - 1` survives the members from `k` on that
      have other cleaned names. */
  lemma RosterKeptFrom(names: seq<string>, found: seq<Result<seq<string>>>, k: nat, q: string, v: Result<Option<string>>)
    requires |names| == |found| && Roster(names, found).Ok? && 0 < k <= |names|
    requires forall j :: k <= j < |names| ==> CleanFormat(names[j]) != q
    requires Roster(names[..k], found[..k]).Ok? && Get(Plain, Roster(names[..k], found[..k]).value.0, q) == v
    ensures Get(Plain, Roster(names, found).value.0, q) == v
  {
    var j := k;
    while j < |names|
      invariant k <= j <= |names|
      invariant Roster(names[..j], found[..j]).Ok?
      invariant Get(Plain, Roster(names[..j], found[..j]).value.0, q) == v
    {
      RosterKept(names, found, j, q);
      j := j + 1;
    }
    assert names[..j] == names && found[..j] == found;
  }

  /** Member `i` of a loop that succeeded is entered under its cleaned name. */
  lemma RosterEntered(names: seq<string>, found: seq<Result<seq<string>>>, i: nat)
    requires |names| == |found| && Roster(names, found).Ok? && i < |names|
    ensures found[i].Ok? && Roster(names[..i + 1], found[..i + 1]).Ok?
    ensures Get(Plain, Roster(names[..i + 1], found[..i + 1]).value.0, CleanFormat(names[i])) == Ok(Outcome(found[i].value))
  {
    RosterFoundOk(names, found, i);
    RosterStep(names, found, i);
    RosterKeys(names[..i], found[..i], CleanFormat(names[i]));
    GetPutSame(Plain, Roster(names[..i], found[..i]).value.0, CleanFormat(names[i]), Outcome(found[i].value), CleanFormat(names[i]));
  }

  /** A later member with another cleaned name leaves the entry under `q` as it was. */
  lemma RosterKept(names: seq<string>, found: seq<Result<seq<string>>>, j: nat, q: string)
    requires |names| == |found| && Roster(names, found).Ok? && j < |names|
    requires CleanFormat(names[j]) != q
    ensures Roster(names[..j], found[..j]).Ok? && Roster(names[..j + 1], found[..j + 1]).Ok?
    ensures Get(Plain, Roster(names[..j + 1], found[..j + 1]).value.0, q) == Get(Plain, Roster(names[..j], found[..j]).value.0, q)
  {
    RosterFoundOk(names, found, j);
    RosterStep(names, found, j);
    RosterKeys(names[..j], found[..j], q);
    GetPutOther(Plain, Roster(names[..j], found[..j]).value.0, CleanFormat(names[j]), Outcome(found[j].value), q);
  }

  /** In a loop that succeeded, every member's question succeeded, and so did
      the loop up to it and past it. */
  lemma RosterFoundOk(names: seq<string>, found: seq<Result<seq<string>>>, j: nat)
    requires |names| == |found| && Roster(names, found).Ok? && j < |names|
    ensures Roster(names[..j], found[..j]).Ok? && found[j].Ok? && Roster(names[..j + 1], found[..j + 1]).Ok?
  {
    RosterPrefixOk(names, found, j + 1);
    RosterStops(names, found, j);
  }

  /** Every prefix of a loop that succeeded succeeded. */
  lemma RosterPrefixOk(names: seq<string>, found: seq<Result<seq<string>>>, j: nat)
    requires |names| == |found| && Roster(names, found).Ok? && j <= |names|
    ensures Roster(names[..j], found[..j]).Ok?
  {
    var k := |names|;
    assert names[..k] == names && found[..k] == found;
    while k > j
      invariant j <= k <= |names|
      invariant Roster(names[..k], found[..k]).Ok?
    {
      RosterStops(names, found, k - 1);
      k := k - 1;
    }
  }

  /** A loop that succeeded succeeded on every member before the last, and
      entered the last member's result. */
  lemma RosterUnfold(names: seq<string>, found: seq<Result<seq<string>>>)
    requires |names| == |found| && names != [] && Roster(names, found).Ok?
    ensures var n := |names| - 1;
      Roster(names[..n], found[..n]).Ok? && found[n].Ok? &&
      Roster(names, found).value.0 ==
        Put(Plain, Roster(names[..n], found[..n]).value.0, CleanFormat(names[n]), Outcome(found[n].value))
  {
  }

  /** `check_roster` succeeds exactly when every member's WA question succeeds;
      its output then has exactly the cleaned member names as keys, each holding
      the cleaned first WA nation of the last member with that cleaned name. */
  lemma CheckRosterSpecProps(wa: string -> Result<string>, nations: Dict<seq<string>>, i: nat)
    requires CheckRosterSpec(wa, nations).Ok? && i < |nations|
    requires forall j :: i < j < |nations| ==> CleanFormat(nations[j].0) != CleanFormat(nations[i].0)
    ensures Unique(Plain, CheckRosterSpec(wa, nations).value.0)
    ensures Candidates(wa, nations[i].0, nations[i].1).Ok?
    ensures Get(Plain, CheckRosterSpec(wa, nations).value.0, CleanFormat(nations[i].0)) ==
      Ok(Outcome(Candidates(wa, nations[i].0, nations[i].1).value))
  {
    var names := Keys(nations);
    var found := Found(wa, nations);
    RosterKeys(names, found, CleanFormat(nations[i].0));
    RosterLast(names, found, i);
  }

  /** The keys of the output are the cleaned member names. */
  lemma CheckRosterKeys(wa: string -> Result<string>, nations: Dict<seq<string>>, q: string)
    requires CheckRosterSpec(wa, nations).Ok?
    ensures In(Plain, CheckRosterSpec(wa, nations).value.0, q) <==>
      exists i :: 0 <= i < |nations| && CleanFormat(nations[i].0) == q
  {
    RosterKeys(Keys(nations), Found(wa, nations), q);
  }

  /** The `changes` of `main`: every old-roster member that is missing from the
      output, mapped to no WA, or whose cleaned WA differs from the old one. */
  function Changes(output: Dict<Option<string>>, current: Dict<string>): (r: Dict<Option<string>>)
    ensures forall e :: e in r <==> exists c :: (c in current &&
      ((!In(Plain, output, c.0) && e == (c.0, None)) ||
       (In(Plain, output, c.0) && Get(Plain, output, c.0).value != Some(c.1) && e == (c.0, Get(Plain, output, c.0).value))))
    decreases |current|
  {
    if current == [] then []
    else
      var c := current[0];
      var rest := Changes(output, current[1..]);
      assert forall x :: x in current <==> x == c || x in current[1..];
      if !In(Plain, output, c.0) then [(c.0, None)] + rest
      else if Get(Plain, output, c.0).value != Some(c.1) then [(c.0, Get(Plain, output, c.0).value)] + rest
      else rest
  }

  /** `print_output` of this script: sorted by nation, "No known WA" when falsy. */
  function PrintOutput(output: Dict<Option<string>>): (lines: seq<string>)
    ensures |lines| == |output|
    ensures exists sorted :: (SortedByKey(sorted) && multiset(sorted) == multiset(output) &&
      |sorted| == |lines| &&
      forall i :: 0 <= i < |sorted| ==> lines[i] == OutputLine(sorted[i], ": ", "No known WA"))
  {
    SortedLinesSpec(output, ": ", "No known WA");
    SortedLines(output, ": ", "No known WA")
  }
}

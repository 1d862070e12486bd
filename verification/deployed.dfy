/**
 * Who is deployed where (roster/deployed.py).  The roster maps each main
 * nation to its switchers; a lead's endorsers are looked up, cleaned, and
 * traced back to their mains.  The lead's endorsement list is a parameter.
 */
module Deployed {
  import opened Outcomes
  import opened Strings
  import opened Core
  import opened Dicts

  /** The pairs (clean_format(switcher), main), main by main, switcher by switcher. */
  function SwitcherPairs(roster: Dict<seq<string>>): (r: seq<(string, string)>)
    decreases |roster|
  {
    if roster == [] then []
    else
      var n := |roster| - 1;
      SwitcherPairs(roster[..n]) + seq(|roster[n].1|, k requires 0 <= k < |roster[n].1| => (CleanFormat(roster[n].1[k]), roster[n].0))
  }

  /** The pairs (main, main), one per main. */
  function MainPairs(roster: Dict<seq<string>>): (r: seq<(string, string)>)
    ensures |r| == |roster| && forall i :: 0 <= i < |roster| ==> r[i] == (roster[i].0, roster[i].0)
  {
    seq(|roster|, i requires 0 <= i < |roster| => (roster[i].0, roster[i].0))
  }

  /** `owners`: the comprehension over the switchers, then `update` with the mains. */
  function Owners(roster: Dict<seq<string>>): Dict<string> {
    FromPairs(Plain, SwitcherPairs(roster) + MainPairs(roster))
  }

  /** The owners of the known endorsers, in endorsement order. */
  function OwnersOf(owners: Dict<string>, endorsers: seq<string>): (r: seq<string>)
    ensures |r| <= |endorsers|
    ensures forall x :: x in r <==>
      (exists i :: 0 <= i < |endorsers| && In(Plain, owners, endorsers[i]) && Get(Plain, owners, endorsers[i]) == Ok(x))
    decreases |endorsers|
  {
    if endorsers == [] then []
    else
      var rest := OwnersOf(owners, endorsers[1..]);
      assert forall i :: 1 <= i < |endorsers| ==> endorsers[i] == endorsers[1..][i - 1];
      if In(Plain, owners, endorsers[0]) then [Get(Plain, owners, endorsers[0]).value] + rest else rest
  }

  /** `deployed`: the mains of the lead's endorsers, one entry per endorser the
      roster knows, in endorsement order. */
  function Deployed(endorsements: seq<string>, roster: Dict<seq<string>>): (r: seq<string>)
    ensures |r| <= |endorsements|
    ensures forall x :: x in r <==>
      (exists i :: 0 <= i < |endorsements| && Get(Plain, Owners(roster), CleanFormat(endorsements[i])) == Ok(x))
  {
    OwnersOf(Owners(roster), CleanAll(endorsements))
  }

  /** One endorser contributes its owner when the owners map knows it, else nothing. */
  lemma OwnersOfOne(owners: Dict<string>, e: string)
    ensures OwnersOf(owners, [e]) == if In(Plain, owners, e) then [Get(Plain, owners, e).value] else []
  {
    assert [e][1..] == [];
  }

  /** The list comprehension keeps endorsement order and repetitions: the
      owners of a concatenation are those of each part, one after the other. */
  lemma {:induction false} OwnersOfAppend(owners: Dict<string>, a: seq<string>, b: seq<string>)
    ensures OwnersOf(owners, a + b) == OwnersOf(owners, a) + OwnersOf(owners, b)
    decreases |a|
  {
    if a == [] {
      assert a + b == b;
    } else {
      assert (a + b)[1..] == a[1..] + b;
      OwnersOfAppend(owners, a[1..], b);
    }
  }

  /** `deployed` goes endorser by endorser: a main appears once for every
      endorsement made by it or by one of its switchers, in endorsement order. */
  lemma DeployedAppend(a: seq<string>, b: seq<string>, roster: Dict<seq<string>>)
    ensures Deployed(a + b, roster) == Deployed(a, roster) + Deployed(b, roster)
  {
    assert CleanAll(a + b) == CleanAll(a) + CleanAll(b);
    OwnersOfAppend(Owners(roster), CleanAll(a), CleanAll(b));
  }

  /** A single endorsement yields the owner of its cleaned name, if any. */
  lemma DeployedOne(e: string, roster: Dict<seq<string>>)
    ensures var q := CleanFormat(e);
      Deployed([e], roster) == if In(Plain, Owners(roster), q) then [Get(Plain, Owners(roster), q).value] else []
  {
    assert CleanAll([e]) == [CleanFormat(e)];
    OwnersOfOne(Owners(roster), CleanFormat(e));
  }

  /** Every switcher pair names a switcher of a main, cleaned, and that main. */
  lemma {:induction false} SwitcherPairsFrom(roster: Dict<seq<string>>, j: nat)
    requires j < |SwitcherPairs(roster)|
    ensures exists i, k :: 0 <= i < |roster| && 0 <= k < |roster[i].1| &&
                           SwitcherPairs(roster)[j] == (CleanFormat(roster[i].1[k]), roster[i].0)
    decreases |roster|
  {
    assert roster != [];
    var n := |roster| - 1;
    var init := roster[..n];
    if j < |SwitcherPairs(init)| {
      SwitcherPairsFrom(init, j);
      var i, k :| 0 <= i < |init| && 0 <= k < |init[i].1| &&
        SwitcherPairs(init)[j] == (CleanFormat(init[i].1[k]), init[i].0);
      assert init[i] == roster[i];
    } else {
      var k := j - |SwitcherPairs(init)|;
      assert SwitcherPairs(roster)[j] == (CleanFormat(roster[n].1[k]), roster[n].0);
    }
  }

  /** Every owner is a main, owning either itself or one of its own switchers. */
  lemma OwnerIsMain(roster: Dict<seq<string>>, q: string, m: string)
    requires Get(Plain, Owners(roster), q) == Ok(m)
    ensures exists i :: 0 <= i < |roster| && roster[i].0 == m &&
                        (q == m || exists k :: 0 <= k < |roster[i].1| && q == CleanFormat(roster[i].1[k]))
  {
    var sw := SwitcherPairs(roster);
    var pairs := sw + MainPairs(roster);
    FromPairsValue(Plain, pairs, q, m);
    var j :| 0 <= j < |pairs| && Norm(Plain, pairs[j].0) == Norm(Plain, q) && pairs[j].1 == m;
    if j < |sw| {
      assert pairs[j] == sw[j];
      SwitcherPairsFrom(roster, j);
    } else {
      assert pairs[j] == (roster[j - |sw|].0, roster[j - |sw|].0);
    }
  }

  /** A main is its own owner, whatever switcher entries say, when the roster
      (a JSON object) has distinct mains. */
  lemma MainOwnsItself(roster: Dict<seq<string>>, i: nat)
    requires Unique(Plain, roster) && i < |roster|
    ensures Get(Plain, Owners(roster), roster[i].0) == Ok(roster[i].0)
  {
    var sw := SwitcherPairs(roster);
    var pairs := sw + MainPairs(roster);
    var q := roster[i].0;
    assert pairs[|sw| + i] == (q, q);
    forall j | |sw| + i < j < |pairs| ensures Norm(Plain, pairs[j].0) != Norm(Plain, q) {
      assert pairs[j].0 == roster[j - |sw|].0;
      assert NormKeys(Plain, roster)[j - |sw|] != NormKeys(Plain, roster)[i];
    }
    assert LastAssignment(Plain, pairs, q, |sw| + i);
    FromPairsLast(Plain, pairs, q, |sw| + i);
  }

  /** An endorser whose cleaned name is a main counts as that main. */
  lemma EndorsingMainCounts(endorsements: seq<string>, roster: Dict<seq<string>>, i: nat, k: nat)
    requires Unique(Plain, roster) && i < |roster| && k < |endorsements|
    requires CleanFormat(endorsements[k]) == roster[i].0
    ensures roster[i].0 in Deployed(endorsements, roster)
  {
    MainOwnsItself(roster, i);
  }

  /** Everything deployed is a main of the roster that endorses the lead
      itself or through one of its switchers. */
  lemma DeployedAreMains(endorsements: seq<string>, roster: Dict<seq<string>>, x: string)
    requires x in Deployed(endorsements, roster)
    ensures exists i, e :: 0 <= i < |roster| && 0 <= e < |endorsements| && roster[i].0 == x &&
                           (CleanFormat(endorsements[e]) == x ||
                            exists k :: 0 <= k < |roster[i].1| && CleanFormat(endorsements[e]) == CleanFormat(roster[i].1[k]))
  {
    var e :| 0 <= e < |endorsements| && Get(Plain, Owners(roster), CleanFormat(endorsements[e])) == Ok(x);
    OwnerIsMain(roster, CleanFormat(endorsements[e]), x);
  }

  /** `deployments`: each lead mapped to its deployed mains; exactly the leads are keys. */
  function Deployments(leads: seq<string>, endorsementsOf: string -> seq<string>, roster: Dict<seq<string>>): (r: Dict<seq<string>>)
    ensures Unique(Plain, r)
  {
    FromPairs(Plain, seq(|leads|, i requires 0 <= i < |leads| => (leads[i], Deployed(endorsementsOf(leads[i]), roster))))
  }

  lemma DeploymentsSpec(leads: seq<string>, endorsementsOf: string -> seq<string>, roster: Dict<seq<string>>, q: string)
    ensures In(Plain, Deployments(leads, endorsementsOf, roster), q) <==> q in leads
    ensures q in leads ==> Get(Plain, Deployments(leads, endorsementsOf, roster), q) == Ok(Deployed(endorsementsOf(q), roster))
  {
    var pairs := seq(|leads|, i requires 0 <= i < |leads| => (leads[i], Deployed(endorsementsOf(leads[i]), roster)));
    FromPairsIn(Plain, pairs, q);
    assert NormKeys(Plain, pairs) == leads;
    if q in leads {
      var i := LastIndex(leads, q);
      assert LastAssignment(Plain, pairs, q, i);
      FromPairsLast(Plain, pairs, q, i);
    }
  }

  /** The index of the last occurrence of `q`. */
  function LastIndex(s: seq<string>, q: string): (i: nat)
    requires q in s
    ensures i < |s| && s[i] == q && forall j :: i < j < |s| ==> s[j] != q
  {
    if s[|s| - 1] == q then |s| - 1
    else
      assert q in s[..|s| - 1] by {
        var k :| 0 <= k < |s| && s[k] == q;
        assert s[..|s| - 1][k] == q;
      }
      LastIndex(s[..|s| - 1], q)
  }

  /** `format_deployed`: "<lead> (<count>): " and the members joined by ", ".
      The line starts with the lead, ends with the joined members, and the
      count printed is the number of members: reading the text after
      "<lead> (" up to the first ')' as an int gives it back. */
  function FormatDeployed(lead: string, members: seq<string>): (text: string)
    ensures |text| >= |lead| + 2 && text[..|lead|] == lead
    ensures ParseInt(SplitOnce(text[|lead| + 2..], ")")[0]) == Ok(|members|)
    ensures var joined := Join(members, ", ");
      |text| >= |joined| && text[|text| - |joined|..] == joined
  {
    var digits := NatToString(|members|);
    var joined := Join(members, ", ");
    var text := lead + " (" + digits + "): " + joined;
    var after := text[|lead| + 2..];
    assert after == digits + [')'] + (": " + joined);
    assert ')' !in digits by {
      forall k | 0 <= k < |digits| ensures digits[k] != ')' {
        assert IsDigit(digits[k]);
      }
    }
    FirstCharOccurrence(digits, ')', ": " + joined);
    assert after[..|digits|] == digits;
    ParseIntToString(|members|);
    text
  }
}

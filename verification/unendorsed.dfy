/**
 * The WA members of a nation's region that it has not endorsed
 * (wa/endorsements.py).  The first version reads the nation dump; the second
 * cross-references the WA member list, the region's nations and each
 * candidate's endorsements shard.  The shards are inputs.
 */
module Unendorsed {
  import opened Outcomes
  import opened Strings
  import opened Core
  import opened Models

  // ---- unendorsed_nations ----

  /** What the generators keep of one dump nation: its cleaned name, when it
      is a WA nation of exactly the endorser's region and the endorser is
      not one of its endorsements. */
  function UnendorsedEntry(nation: NationStandard, region: string, endorser: string): Option<string> {
    if nation.region == region && StartsWith(nation.WAStatus, "WA") && endorser !in nation.endorsements
    then Some(CleanFormat(nation.name))
    else None
  }

  function UnendorsedEach(dump: seq<NationStandard>, region: string, endorser: string): (r: seq<Option<string>>)
    ensures |r| == |dump| && forall i :: 0 <= i < |dump| ==> r[i] == UnendorsedEntry(dump[i], region, endorser)
  {
    seq(|dump|, i requires 0 <= i < |dump| => UnendorsedEntry(dump[i], region, endorser))
  }

  /** The unendorsed WA members of `region`, cleaned, in dump order. */
  function UnendorsedOf(dump: seq<NationStandard>, region: string, endorser: string): seq<string> {
    Somes(UnendorsedEach(dump, region, endorser))
  }

  /** `unendorsed_nations`: the endorser's region, from its "region" shard,
      and the unendorsed WA members of it. */
  function UnendorsedNations(regionShard: string -> string, dump: seq<NationStandard>, endorser: string)
    : (r: (string, seq<string>))
    ensures r.0 == regionShard(endorser)
    ensures |r.1| <= |dump|
  {
    SomesIn(UnendorsedEach(dump, regionShard(endorser), endorser), "");
    (regionShard(endorser), UnendorsedOf(dump, regionShard(endorser), endorser))
  }

  /** A cleaned name is listed exactly when a dump nation with that cleaned
      name lives in the region, spelled exactly alike, is a WA member, and
      does not list the endorser among its endorsements. */
  lemma UnendorsedMembers(dump: seq<NationStandard>, region: string, endorser: string, name: string)
    ensures name in UnendorsedOf(dump, region, endorser) <==>
      exists i :: 0 <= i < |dump| && CleanFormat(dump[i].name) == name &&
        dump[i].region == region && StartsWith(dump[i].WAStatus, "WA") &&
        endorser !in dump[i].endorsements
  {
    var each := UnendorsedEach(dump, region, endorser);
    SomesIn(each, name);
    if name in UnendorsedOf(dump, region, endorser) {
      var i :| 0 <= i < |each| && each[i] == Some(name);
      assert CleanFormat(dump[i].name) == name;
    }
  }

  /** The dump is read in order. */
  lemma UnendorsedAppend(a: seq<NationStandard>, b: seq<NationStandard>, region: string, endorser: string)
    ensures UnendorsedOf(a + b, region, endorser) == UnendorsedOf(a, region, endorser) + UnendorsedOf(b, region, endorser)
  {
    assert UnendorsedEach(a + b, region, endorser) == UnendorsedEach(a, region, endorser) + UnendorsedEach(b, region, endorser);
    SomesAppend(UnendorsedEach(a, region, endorser), UnendorsedEach(b, region, endorser));
  }

  /** A nation that the endorser has endorsed is never listed, under its
      cleaned name, unless another dump nation with that cleaned name is. */
  lemma EndorsedNotListed(dump: seq<NationStandard>, region: string, endorser: string, i: nat)
    requires i < |dump| && endorser in dump[i].endorsements
    requires forall j :: 0 <= j < |dump| && j != i ==> CleanFormat(dump[j].name) != CleanFormat(dump[i].name)
    ensures CleanFormat(dump[i].name) !in UnendorsedOf(dump, region, endorser)
  {
    UnendorsedMembers(dump, region, endorser, CleanFormat(dump[i].name));
  }

  // ---- unendorsed_nations_v2 ----

  /** The comma-separated names of an endorsements shard, as a set. */
  function EndorsementSet(text: string): set<string> {
    set e | e in Split(text, ",")
  }

  /** The region's citizens: WA members (comma-separated) that are among the
      region's nations (colon-separated). */
  function Citizens(members: string, nationsShard: string): (r: set<string>)
    ensures forall n :: n in r <==> n in Split(members, ",") && n in Split(nationsShard, ":")
  {
    (set m | m in Split(members, ",")) * (set n | n in Split(nationsShard, ":"))
  }

  /** The citizens left to check: those that do not already endorse the endorser. */
  function Candidates(members: string, nationsShard: string, endorsements: string): set<string> {
    Citizens(members, nationsShard) - EndorsementSet(endorsements)
  }

  /** The inputs of `unendorsed_nations_v2`: the endorser's "region" and
      "endorsements" shards, the WA "members" shard, the "nations" shard of a
      region, and the "endorsements" shard of a nation. */
  datatype V2Inputs = V2Inputs(
    region: string, endorsements: string, members: string,
    nationsOf: string -> string, endorsementsOf: string -> string)

  /** `unendorsed_nations_v2` as written: a candidate is kept when the
      endorser's name is not a substring of the candidate's endorsements
      text. */
  function UnendorsedV2AsWritten(inputs: V2Inputs, endorser: string): (r: (string, set<string>))
    ensures r.0 == inputs.region
    ensures forall n :: n in r.1 <==>
      n in Candidates(inputs.members, inputs.nationsOf(inputs.region), inputs.endorsements) &&
      !Contains(inputs.endorsementsOf(n), endorser)
  {
    var nations := Candidates(inputs.members, inputs.nationsOf(inputs.region), inputs.endorsements);
    (inputs.region, set n | n in nations && !Contains(inputs.endorsementsOf(n), endorser))
  }

  /** `unendorsed_nations_v2` as intended: a candidate is kept when the
      endorser is not one of the names of its endorsements shard. */
  function UnendorsedV2(inputs: V2Inputs, endorser: string): (r: (string, set<string>))
    ensures r.0 == inputs.region
    ensures forall n :: n in r.1 <==>
      n in Citizens(inputs.members, inputs.nationsOf(inputs.region)) &&
      n !in EndorsementSet(inputs.endorsements) &&
      endorser !in EndorsementSet(inputs.endorsementsOf(n))
  {
    var nations := Candidates(inputs.members, inputs.nationsOf(inputs.region), inputs.endorsements);
    (inputs.region, set n | n in nations && endorser !in Split(inputs.endorsementsOf(n), ","))
  }

  /** The substring test only ever drops more: everything the code as
      written reports is reported by the intended test too. */
  lemma V2AsWrittenWithin(inputs: V2Inputs, endorser: string)
    ensures UnendorsedV2AsWritten(inputs, endorser).1 <= UnendorsedV2(inputs, endorser).1
  {
    forall n | n in UnendorsedV2AsWritten(inputs, endorser).1 ensures n in UnendorsedV2(inputs, endorser).1 {
      SplitPiecesOccur(inputs.endorsementsOf(n), ",");
    }
  }

  /** The substring test misses a nation that a longer-named nation
      endorsed: "x" is endorsed only by "abc", yet the code as written takes
      it to be endorsed by "ab". */
  lemma V2SubstringCounterexample()
    ensures var inputs := V2Inputs("r", "", "x", _ => "x", _ => "abc");
      UnendorsedV2AsWritten(inputs, "ab").1 == {} && UnendorsedV2(inputs, "ab").1 == {"x"}
  {
    var inputs := V2Inputs("r", "", "x", _ => "x", _ => "abc");
    assert "," == [','] && ":" == [':'];
    ContainsChar("x", ',');
    ContainsChar("x", ':');
    ContainsChar("abc", ',');
    ContainsChar("", ',');
    assert Split("x", ",") == ["x"] && Split("x", ":") == ["x"];
    assert Split("abc", ",") == ["abc"] && Split("", ",") == [""];
    assert OccursAt("abc", "ab", 0);
    assert Contains("abc", "ab");
  }
}

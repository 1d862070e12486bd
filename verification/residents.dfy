/**
 * The WA residents of a region (wa/waresidents.py and its older copy
 * waresidents.py): the region's nations that are WA members, the page links
 * of a list of nations, and the WA nations of a region with few
 * endorsements, found in the nation dump.  The region's nation list, the
 * text of the WA "members" shard and the nations of the dump are inputs.
 */
module WaResidents {
  import opened Outcomes
  import opened Strings
  import opened Core
  import opened Models

  /** `residents`: the region's nations that are also WA members; the
      members shard is a comma-separated list of names. */
  function Residents(regionNations: seq<string>, members: string): (r: set<string>)
    ensures forall n :: n in r <==> n in regionNations && n in Split(members, ",")
  {
    (set n | n in regionNations) * (set m | m in Split(members, ","))
  }

  /** A nation is a resident only as a whole member name: a member list that
      holds the name as part of a longer one does not count. */
  lemma ResidentsWholeNames()
    ensures Residents(["b"], "ab") == {}
    ensures Residents(["ab"], "ab") == {"ab"}
  {
    assert "," == [','];
    assert ',' !in "ab";
    ContainsChar("ab", ',');
    assert Split("ab", ",") == ["ab"];
  }

  // ---- listLinks ----

  /** The page link of each nation, built from its cleaned name. */
  function Links(nations: seq<string>): (r: seq<string>)
    ensures |r| == |nations|
    ensures forall i :: 0 <= i < |nations| ==> r[i] == NationLink + CleanFormat(nations[i])
  {
    seq(|nations|, i requires 0 <= i < |nations| => NationLink + CleanFormat(nations[i]))
  }

  /** `listLinks`: the links joined by newlines, with a trailing newline.  No
      nations give a lone newline; otherwise every link is followed by a
      newline, so there is one line per nation. */
  function ListLinks(nations: seq<string>): (r: string)
    ensures nations == [] ==> r == "\n"
    ensures nations != [] ==> r == Terminated(Links(nations), "\n")
    ensures r[|r| - 1] == '\n'
  {
    if nations != [] then
      JoinTerminated(Links(nations), "\n");
      Join(Links(nations), "\n") + "\n"
    else
      Join(Links(nations), "\n") + "\n"
  }

  /** Cleaning keeps newlines out of a name without them. */
  lemma CleanFormatNoNewline(s: string)
    requires '\n' !in s
    ensures '\n' !in NationLink + CleanFormat(s)
  {
    assert forall i :: 0 <= i < |s| ==> CleanFormat(s)[i] != '\n' by {
      forall i | 0 <= i < |s| ensures CleanFormat(s)[i] != '\n' {
        assert s[i] != '\n';
      }
    }
  }

  /** Split at its newlines, the output of `listLinks` gives back the links
      and an empty last piece: one line per nation, for names without newlines. */
  lemma ListLinksSplit(nations: seq<string>)
    requires nations != [] && forall n <- nations :: '\n' !in n
    ensures Split(ListLinks(nations), "\n") == Links(nations) + [""]
    ensures |Split(ListLinks(nations), "\n")| == |nations| + 1
  {
    var links := Links(nations);
    forall l <- links ensures '\n' !in l {
      var i :| 0 <= i < |links| && links[i] == l;
      CleanFormatNoNewline(nations[i]);
    }
    SplitJoinedLines(links);
  }

  // ---- low_endorsements ----

  /** What `low_endorsements` keeps of one dump nation: its name, when the
      nation is in the region (ignoring case), in the WA, and has at most
      `count` endorsements. */
  function LowEndorsed(nation: NationStandard, lowerRegion: string, count: int): Option<string> {
    if Lower(nation.region) == lowerRegion && StartsWith(nation.WAStatus, "WA") && |nation.endorsements| <= count
    then Some(nation.name)
    else None
  }

  function LowEndorsedEach(dump: seq<NationStandard>, lowerRegion: string, count: int): (r: seq<Option<string>>)
    ensures |r| == |dump| && forall i :: 0 <= i < |dump| ==> r[i] == LowEndorsed(dump[i], lowerRegion, count)
  {
    seq(|dump|, i requires 0 <= i < |dump| => LowEndorsed(dump[i], lowerRegion, count))
  }

  /** `low_endorsements` as a value: the raw names of the kept nations, in
      dump order.  Each name listed is that of a dump nation of the region,
      compared without case, that is in the WA with at most `count`
      endorsements. */
  function LowEndorsementsOf(dump: seq<NationStandard>, region: string, count: int): (r: seq<string>)
    ensures |r| <= |dump|
    ensures forall name :: name in r ==>
      exists i :: 0 <= i < |dump| && dump[i].name == name &&
        Lower(dump[i].region) == Lower(region) && StartsWith(dump[i].WAStatus, "WA") &&
        |dump[i].endorsements| <= count
  {
    var each := LowEndorsedEach(dump, Lower(region), count);
    assert forall name :: name in Somes(each) ==>
      exists i :: 0 <= i < |dump| && dump[i].name == name &&
        Lower(dump[i].region) == Lower(region) && StartsWith(dump[i].WAStatus, "WA") &&
        |dump[i].endorsements| <= count by {
      forall name | name in Somes(each)
        ensures exists i :: (0 <= i < |dump| && dump[i].name == name &&
          Lower(dump[i].region) == Lower(region) && StartsWith(dump[i].WAStatus, "WA") &&
          |dump[i].endorsements| <= count)
      {
        SomesIn(each, name);
        var i :| 0 <= i < |each| && each[i] == Some(name);
        assert dump[i].name == name;
      }
    }
    assert |Somes(each)| <= |dump| by {
      if dump != [] {
        SomesIn(each, dump[0].name);
      }
    }
    Somes(each)
  }

  /** A name is listed exactly when a dump nation of that name is a WA
      nation of the region, compared without case, with at most `count`
      endorsements; the bound is inclusive. */
  lemma LowEndorsementsMembers(dump: seq<NationStandard>, region: string, count: int, name: string)
    ensures |LowEndorsementsOf(dump, region, count)| <= |dump|
    ensures name in LowEndorsementsOf(dump, region, count) <==>
      exists i :: 0 <= i < |dump| && dump[i].name == name &&
        Lower(dump[i].region) == Lower(region) && StartsWith(dump[i].WAStatus, "WA") &&
        |dump[i].endorsements| <= count
  {
    var each := LowEndorsedEach(dump, Lower(region), count);
    SomesIn(each, name);
    if name in LowEndorsementsOf(dump, region, count) {
      var i :| 0 <= i < |each| && each[i] == Some(name);
      assert dump[i].name == name;
    }
  }

  /** The dump is read in order: the list for a dump in two parts is the
      lists of the parts, one after the other. */
  lemma LowEndorsementsAppend(a: seq<NationStandard>, b: seq<NationStandard>, region: string, count: int)
    ensures LowEndorsementsOf(a + b, region, count) == LowEndorsementsOf(a, region, count) + LowEndorsementsOf(b, region, count)
  {
    var r := Lower(region);
    assert LowEndorsedEach(a + b, r, count) == LowEndorsedEach(a, r, count) + LowEndorsedEach(b, r, count);
    SomesAppend(LowEndorsedEach(a, r, count), LowEndorsedEach(b, r, count));
  }

  /** Spellings of the region that differ only in case give the same list. */
  lemma LowEndorsementsIgnoresCase(dump: seq<NationStandard>, region1: string, region2: string, count: int)
    requires Lower(region1) == Lower(region2)
    ensures LowEndorsementsOf(dump, region1, count) == LowEndorsementsOf(dump, region2, count)
  {
  }

  /** `low_endorsements`: the loop over the dump that appends each kept name. */
  method LowEndorsements(dump: seq<NationStandard>, region: string, count: int) returns (filtered: seq<string>)
    ensures filtered == LowEndorsementsOf(dump, region, count)
  {
    var lowerRegion := Lower(region);
    ghost var each := LowEndorsedEach(dump, lowerRegion, count);
    filtered := [];
    var i := 0;
    while i < |dump|
      invariant 0 <= i <= |dump|
      invariant filtered == Somes(each[..i])
    {
      var nation := dump[i];
      assert each[..i + 1] == each[..i] + [each[i]];
      SomesSnoc(each[..i], each[i]);
      if Lower(nation.region) == lowerRegion && StartsWith(nation.WAStatus, "WA") && |nation.endorsements| <= count {
        filtered := filtered + [nation.name];
      }
      i := i + 1;
    }
    assert each[..|dump|] == each;
  }

  // ---- main ----

  /** What `main` collects: the residents from the API, or the listed
      nations from the dump. */
  datatype Collected = FromApi(residents: set<string>) | FromDump(names: seq<string>)

  /** `main`: the API-based residents when `count` is absent or zero, the
      dump search with that bound otherwise. */
  function MainNations(regionNations: seq<string>, members: string, dump: seq<NationStandard>,
                       region: string, count: Option<int>): (r: Collected)
    ensures r.FromApi? <==> count.None? || count.value == 0
    ensures r.FromApi? ==> r.residents == Residents(regionNations, members)
    ensures r.FromDump? ==> count.Some? && r.names == LowEndorsementsOf(dump, region, count.value)
  {
    if Falsy(count) then FromApi(Residents(regionNations, members))
    else FromDump(LowEndorsementsOf(dump, region, count.value))
  }
}

/**
 * Collecting the nations of tagged regions (search/nationcollector.py, and
 * its identical copy nationcollector.py): the regions a world tag search
 * returns, less some excluded ones; the cleaned nations of each such region,
 * read from the region dump; and the announcement text that pings them.
 * The tag search and the dump are inputs.
 */
module NationCollector {
  import opened Outcomes
  import opened Strings
  import opened Core
  import opened Dicts
  import opened Models
  import opened NationTags

  /** `set(clean_format(n) for n in names)`. */
  function Cleaned(names: seq<string>): set<string> {
    set n | n in names :: CleanFormat(n)
  }

  // ---- filter_regions ----

  /** A tagged region is kept unless its cleaned name is an excluded one. */
  function KeptRegion(region: string, excluded: set<string>): Option<string> {
    if CleanFormat(region) !in excluded then Some(region) else None
  }

  function KeptRegions(tagged: seq<string>, excluded: set<string>): (r: seq<Option<string>>)
    ensures |r| == |tagged| && forall i :: 0 <= i < |tagged| ==> r[i] == KeptRegion(tagged[i], excluded)
  {
    seq(|tagged|, i requires 0 <= i < |tagged| => KeptRegion(tagged[i], excluded))
  }

  /** `filter_regions`, given the regions the tag search returned. */
  function FilterRegions(tagged: seq<string>, exclude: seq<string>): seq<string> {
    Somes(KeptRegions(tagged, Cleaned(exclude)))
  }

  /** A region is kept exactly when the search returned it and no exclusion
      has the same cleaned name. */
  lemma FilterRegionsMembers(tagged: seq<string>, exclude: seq<string>, region: string)
    ensures |FilterRegions(tagged, exclude)| <= |tagged|
    ensures region in FilterRegions(tagged, exclude) <==>
      region in tagged && forall e <- exclude :: CleanFormat(e) != CleanFormat(region)
  {
    var kept := KeptRegions(tagged, Cleaned(exclude));
    SomesIn(kept, region);
    if region in tagged {
      var i :| 0 <= i < |tagged| && tagged[i] == region;
      assert kept[i] == KeptRegion(region, Cleaned(exclude));
    }
  }

  /** The search results are filtered in order. */
  lemma FilterRegionsAppend(a: seq<string>, b: seq<string>, exclude: seq<string>)
    ensures FilterRegions(a + b, exclude) == FilterRegions(a, exclude) + FilterRegions(b, exclude)
  {
    var excluded := Cleaned(exclude);
    assert KeptRegions(a + b, excluded) == KeptRegions(a, excluded) + KeptRegions(b, excluded);
    SomesAppend(KeptRegions(a, excluded), KeptRegions(b, excluded));
  }

  // ---- get_nations_by_region ----

  /** The entry a dump region gives: its cleaned name and cleaned nations,
      when its cleaned name was asked for. */
  function Requested(region: RegionStandard, wanted: set<string>): Option<(string, seq<string>)> {
    if CleanFormat(region.name) in wanted then Some((CleanFormat(region.name), CleanAll(region.nations)))
    else None
  }

  /** `get_nations_by_region` as a value: the assignments of the loop, in dump order. */
  function NationsByRegionOf(dump: seq<RegionStandard>, regions: seq<string>): Dict<seq<string>> {
    var wanted := Cleaned(regions);
    FromPairs(Plain, PairsOf(dump, (r: RegionStandard) => Requested(r, wanted)))
  }

  /** A cleaned name is a key exactly when a dump region has it and it was
      asked for under some spelling. */
  lemma NationsByRegionKeys(dump: seq<RegionStandard>, regions: seq<string>, k: string)
    ensures In(Plain, NationsByRegionOf(dump, regions), k) <==>
      (exists i :: 0 <= i < |dump| && CleanFormat(dump[i].name) == k) && k in Cleaned(regions)
  {
    var wanted := Cleaned(regions);
    var f := (r: RegionStandard) => Requested(r, wanted);
    PairsOfIn(Plain, dump, f, k);
    if (exists i :: 0 <= i < |dump| && CleanFormat(dump[i].name) == k) && k in wanted {
      var i :| 0 <= i < |dump| && CleanFormat(dump[i].name) == k;
      assert f(dump[i]).Some?;
    }
  }

  /** The nations of a key are the cleaned nations of the last dump region
      with that cleaned name, in their order. */
  lemma NationsByRegionLast(dump: seq<RegionStandard>, regions: seq<string>, i: nat)
    requires i < |dump| && CleanFormat(dump[i].name) in Cleaned(regions)
    requires forall j :: i < j < |dump| ==> CleanFormat(dump[j].name) != CleanFormat(dump[i].name)
    ensures Get(Plain, NationsByRegionOf(dump, regions), CleanFormat(dump[i].name)) == Ok(CleanAll(dump[i].nations))
  {
    var wanted := Cleaned(regions);
    var f := (r: RegionStandard) => Requested(r, wanted);
    LastPairWins(Plain, dump, f, i, CleanFormat(dump[i].name), CleanAll(dump[i].nations));
  }

  /** `get_nations_by_region`: the loop over the dump regions. */
  method NationsByRegion(dump: seq<RegionStandard>, regions: seq<string>) returns (output: Dict<seq<string>>)
    ensures output == NationsByRegionOf(dump, regions)
  {
    var regionSet := Cleaned(regions);
    ghost var f := (r: RegionStandard) => Requested(r, regionSet);
    output := [];
    var i := 0;
    while i < |dump|
      invariant 0 <= i <= |dump|
      invariant output == FromPairs(Plain, PairsOf(dump[..i], f))
    {
      var region := dump[i];
      PairsOfNext(Plain, dump, f, i);
      if CleanFormat(region.name) in regionSet {
        output := Put(Plain, output, CleanFormat(region.name), CleanAll(region.nations));
      }
      i := i + 1;
    }
    assert dump[..|dump|] == dump;
  }

  // ---- assemble_defender_announcment ----

  /** The line of one region: its name, a colon, then its nations in tags. */
  function AnnouncementLine(entry: (string, seq<string>)): string {
    entry.0 + ":" + Tagged(entry.1)
  }

  function AnnouncementLines(nationMap: Dict<seq<string>>): (r: seq<string>)
    ensures |r| == |nationMap| && forall i :: 0 <= i < |nationMap| ==> r[i] == AnnouncementLine(nationMap[i])
  {
    seq(|nationMap|, i requires 0 <= i < |nationMap| => AnnouncementLine(nationMap[i]))
  }

  /** The announcement: the region lines joined by newlines, with a trailing one. */
  function Announcement(nationMap: Dict<seq<string>>): string {
    Join(AnnouncementLines(nationMap), "\n") + "\n"
  }

  /** A region line splits at its first colon into the region and its tags,
      for a region name without a colon. */
  lemma AnnouncementLineRegion(entry: (string, seq<string>))
    requires ':' !in entry.0
    ensures SplitOnce(AnnouncementLine(entry), ":") == [entry.0, Tagged(entry.1)]
  {
    assert ":" == [':'];
    SplitOnceChar(entry.0, ':', Tagged(entry.1));
  }

  /** The announcement has one line per region, in the order of the map,
      and ends with a newline; no regions give a lone newline. */
  lemma AnnouncementLinesBack(nationMap: Dict<seq<string>>)
    requires NoNewlines(nationMap)
    ensures nationMap == [] ==> Announcement(nationMap) == "\n"
    ensures nationMap != [] ==> Split(Announcement(nationMap), "\n") == AnnouncementLines(nationMap) + [""]
  {
    var lines := AnnouncementLines(nationMap);
    forall l <- lines ensures '\n' !in l {
      var i :| 0 <= i < |lines| && lines[i] == l;
      TaggedNoNewline(nationMap[i].1);
      assert l == nationMap[i].0 + ":" + Tagged(nationMap[i].1);
    }
    if nationMap != [] {
      SplitJoinedLines(lines);
    }
  }

  /** The regions never pinged by the defender announcement. */
  const DefenderExclusions: seq<string> := [
    "Artificial Solar System", "First World Order", "Dead Sea", "Wintreath",
    "Spear Danes", "Rogue Wolves", "Naval Air Station Keflavik", "Lily",
    "Army of Freedom", "Lardyland", "Common Jaguar Wilds", "The Reich",
    "The Center For Student Engagement"]

  /** The tags the defender announcement searches with. */
  const DefenderTags: seq<string> := ["defender", "-fascist"]

  /** The nation map of the defender announcement, given what the tag
      search returns for the defender tags. */
  function DefenderMap(regionsByTag: seq<string> -> seq<string>, dump: seq<RegionStandard>): Dict<seq<string>> {
    NationsByRegionOf(dump, FilterRegions(regionsByTag(DefenderTags), DefenderExclusions))
  }

  /** No newline in a region name or in a nation of the map. */
  predicate NoNewlines(nationMap: Dict<seq<string>>) {
    forall i :: 0 <= i < |nationMap| ==> '\n' !in nationMap[i].0 && forall n <- nationMap[i].1 :: '\n' !in n
  }

  /** `assemble_defender_announcment`: one line per region of the defender
      map, in its order, then a newline; a lone newline when no region is
      left. */
  function DefenderAnnouncement(regionsByTag: seq<string> -> seq<string>, dump: seq<RegionStandard>): (r: string)
    ensures var m := DefenderMap(regionsByTag, dump);
      (m == [] ==> r == "\n") &&
      (m != [] && NoNewlines(m) ==> Split(r, "\n") == AnnouncementLines(m) + [""])
  {
    var m := DefenderMap(regionsByTag, dump);
    assert m != [] && NoNewlines(m) ==> Split(Announcement(m), "\n") == AnnouncementLines(m) + [""] by {
      if NoNewlines(m) {
        AnnouncementLinesBack(m);
      }
    }
    assert m == [] ==> Announcement(m) == "\n" by {
      if m == [] {
        assert AnnouncementLines(m) == [];
      }
    }
    Announcement(m)
  }

  /** No excluded region gets a line, under any spelling that cleans alike,
      and every region that does was returned by the tag search. */
  lemma DefenderExcluded(regionsByTag: seq<string> -> seq<string>, dump: seq<RegionStandard>, k: string)
    requires In(Plain, DefenderMap(regionsByTag, dump), k)
    ensures forall e <- DefenderExclusions :: CleanFormat(e) != k
    ensures exists r <- regionsByTag(DefenderTags) :: CleanFormat(r) == k
  {
    var kept := FilterRegions(regionsByTag(DefenderTags), DefenderExclusions);
    NationsByRegionKeys(dump, kept, k);
    var r :| r in kept && CleanFormat(r) == k;
    FilterRegionsMembers(regionsByTag(DefenderTags), DefenderExclusions, r);
  }
}

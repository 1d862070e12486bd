/**
 * The factbook search over the region dump (wfe.py): the regions whose
 * factbook holds one of the keywords and whose population is above a
 * minimum, and the link lines printed for them.  The decoded regions of the
 * dump are an input.  wfe.py itself hands `retrieve_iterator` the text
 * "regions" instead of a dump resource, so as written it raises before any
 * region is read; `FactbookSearcherAsWritten` models that.
 */
module FactbookSearch {
  import opened Outcomes
  import opened Strings
  import opened Core
  import opened Models
  import opened Resources

  /** `any(keyword in factbook for keyword in keywords)`. */
  predicate AnyKeyword(factbook: string, keywords: seq<string>) {
    exists k <- keywords :: Contains(factbook, k)
  }

  /** What the comprehension keeps of one region. */
  function Found(region: RegionStandard, keywords: seq<string>, populationMinimum: int): Option<RegionStandard> {
    if AnyKeyword(region.factbook, keywords) && region.numnations > populationMinimum then Some(region) else None
  }

  function FoundEach(dump: seq<RegionStandard>, keywords: seq<string>, populationMinimum: int): (r: seq<Option<RegionStandard>>)
    ensures |r| == |dump| && forall i :: 0 <= i < |dump| ==> r[i] == Found(dump[i], keywords, populationMinimum)
  {
    seq(|dump|, i requires 0 <= i < |dump| => Found(dump[i], keywords, populationMinimum))
  }

  /** `factbook_searcher` over the decoded REGION elements of the dump: the
      matching regions, in dump order.  Every region returned is a dump region
      holding a keyword in its factbook with more nations than the minimum. */
  function FactbookSearcher(dump: seq<RegionStandard>, keywords: seq<string>, populationMinimum: int): (r: seq<RegionStandard>)
    ensures |r| <= |dump|
    ensures forall region :: region in r ==>
      region in dump && AnyKeyword(region.factbook, keywords) && region.numnations > populationMinimum
  {
    var each := FoundEach(dump, keywords, populationMinimum);
    assert forall region :: region in Somes(each) ==>
      region in dump && AnyKeyword(region.factbook, keywords) && region.numnations > populationMinimum by {
      forall region | region in Somes(each)
        ensures region in dump && AnyKeyword(region.factbook, keywords) && region.numnations > populationMinimum
      {
        SomesIn(each, region);
      }
    }
    assert |Somes(each)| <= |dump| by {
      if dump != [] {
        SomesIn(each, dump[0]);
      }
    }
    Somes(each)
  }

  /** What wfe.py hands `retrieve_iterator` as the dump to read: a
      `Resource`, or, as it does, the bare text "regions". */
  datatype DumpArgument = ResourceArgument(res: Resource) | TextArgument(text: string)

  /** `resolve(resource, location)` for such an argument: `location or
      resource.name`, and a `str` has no attribute `name`. */
  function ResolveArgument(arg: DumpArgument, location: Option<string>): (r: Result<string>)
    ensures location.Some? && location.value != "" ==> r == Ok(location.value)
    ensures arg.ResourceArgument? ==> r == Ok(Resolve(arg.res, location))
    ensures (location.None? || location.value == "") && arg.TextArgument? ==> r == Err(AttributeError("name"))
  {
    if location.Some? && location.value != "" then Ok(location.value)
    else if arg.ResourceArgument? then Ok(arg.res.name)
    else Err(AttributeError("name"))
  }

  /** `factbook_searcher` as written: the dump path is resolved from the text
      "regions" with no location before any region is read; only a
      successful resolution would go on to the search. */
  function FactbookSearcherAsWritten(dump: seq<RegionStandard>, keywords: seq<string>, populationMinimum: int): (r: Result<seq<RegionStandard>>)
    ensures r.Ok? ==> r.value == FactbookSearcher(dump, keywords, populationMinimum)
  {
    var _ :- ResolveArgument(TextArgument("regions"), None);
    Ok(FactbookSearcher(dump, keywords, populationMinimum))
  }

  /** Whatever the dump and the keywords, the search as written raises
      AttributeError instead of returning regions. */
  lemma FactbookSearcherAsWrittenFails(dump: seq<RegionStandard>, keywords: seq<string>, populationMinimum: int)
    ensures FactbookSearcherAsWritten(dump, keywords, populationMinimum) == Err(AttributeError("name"))
  {
  }

  /** A region is found exactly when it is in the dump, one keyword is a
      substring of its factbook, and it has strictly more nations than the
      minimum. */
  lemma FactbookSearcherMembers(dump: seq<RegionStandard>, keywords: seq<string>, populationMinimum: int, region: RegionStandard)
    ensures |FactbookSearcher(dump, keywords, populationMinimum)| <= |dump|
    ensures region in FactbookSearcher(dump, keywords, populationMinimum) <==>
      region in dump && AnyKeyword(region.factbook, keywords) && region.numnations > populationMinimum
  {
    var each := FoundEach(dump, keywords, populationMinimum);
    SomesIn(each, region);
    if region in dump && AnyKeyword(region.factbook, keywords) && region.numnations > populationMinimum {
      var i :| 0 <= i < |dump| && dump[i] == region;
      assert each[i] == Some(region);
    }
  }

  /** The dump is read in order. */
  lemma FactbookSearcherAppend(a: seq<RegionStandard>, b: seq<RegionStandard>, keywords: seq<string>, populationMinimum: int)
    ensures FactbookSearcher(a + b, keywords, populationMinimum) ==
      FactbookSearcher(a, keywords, populationMinimum) + FactbookSearcher(b, keywords, populationMinimum)
  {
    assert FoundEach(a + b, keywords, populationMinimum) ==
      FoundEach(a, keywords, populationMinimum) + FoundEach(b, keywords, populationMinimum);
    SomesAppend(FoundEach(a, keywords, populationMinimum), FoundEach(b, keywords, populationMinimum));
  }

  /** Without keywords nothing is found. */
  lemma NoKeywordsNothing(dump: seq<RegionStandard>, populationMinimum: int)
    ensures FactbookSearcher(dump, [], populationMinimum) == []
  {
    var each := FoundEach(dump, [], populationMinimum);
    if FactbookSearcher(dump, [], populationMinimum) != [] {
      var region := FactbookSearcher(dump, [], populationMinimum)[0];
      FactbookSearcherMembers(dump, [], populationMinimum, region);
    }
  }

  /** The empty string is in every factbook. */
  lemma ContainsEmpty(s: string)
    ensures Contains(s, "")
  {
    assert OccursAt(s, "", 0);
  }

  /** An empty keyword line gives the one keyword "", which every factbook
      holds: the search then keeps every region above the minimum. */
  lemma EmptyKeywordLine(dump: seq<RegionStandard>, populationMinimum: int, region: RegionStandard)
    ensures Split("", ",") == [""]
    ensures region in FactbookSearcher(dump, Split("", ","), populationMinimum) <==>
      region in dump && region.numnations > populationMinimum
  {
    assert Split("", ",") == [""];
    ContainsEmpty(region.factbook);
    assert "" in [""];
    FactbookSearcherMembers(dump, [""], populationMinimum, region);
  }

  /** The line `main` prints for each region found. */
  function ResultLines(regions: seq<RegionStandard>): (r: seq<string>)
    ensures |r| == |regions| && forall i :: 0 <= i < |regions| ==> r[i] == RegionLink + CleanFormat(regions[i].name)
  {
    seq(|regions|, i requires 0 <= i < |regions| => RegionLink + CleanFormat(regions[i].name))
  }
}

/**
 * The card lists of one rarity (cards/rarityfinder.py): the cards of that
 * rarity in the season 1 and season 2 card dumps, saved as string records
 * to a JSON file named after the rarity.  The dumps are inputs; the file
 * system is a map from path to the records the file holds.
 */
module RarityFinder {
  import opened Outcomes
  import opened Strings
  import opened Models

  /** `resolve_path`: the file of a rarity. */
  function ResolvePath(rarity: string): (r: string)
    ensures |r| == |rarity| + |"Cards.json"| && r[..|rarity|] == rarity
  {
    rarity + "Cards.json"
  }

  /** Each rarity has a file of its own. */
  lemma ResolvePathDistinct(a: string, b: string)
    ensures ResolvePath(a) == ResolvePath(b) <==> a == b
  {
    if ResolvePath(a) == ResolvePath(b) {
      assert a == ResolvePath(a)[..|a|];
    }
  }

  /** One saved record: `{"cardid": str(id), "season": season, "name": name}`. */
  datatype RarityRecord = RarityRecord(cardid: string, season: string, name: string)

  function Record(card: CardStandard, season: string): (r: RarityRecord)
    ensures r.season == season && r.name == card.name
    ensures ParseInt(r.cardid) == Ok(card.id)
  {
    ParseIntToString(card.id);
    RarityRecord(IntToString(card.id), season, card.name)
  }

  /** What a dump loop keeps of one card: the card and its season, when the
      card has the rarity. */
  function Kept(card: CardStandard, rarity: string, season: string): Option<(CardStandard, string)> {
    if card.rarity == rarity then Some((card, season)) else None
  }

  function KeptEach(dump: seq<CardStandard>, rarity: string, season: string): (r: seq<Option<(CardStandard, string)>>)
    ensures |r| == |dump| && forall i :: 0 <= i < |dump| ==> r[i] == Kept(dump[i], rarity, season)
  {
    seq(|dump|, i requires 0 <= i < |dump| => Kept(dump[i], rarity, season))
  }

  /** The cards of one dump with the rarity, in dump order, with the season. */
  function SelectedOf(dump: seq<CardStandard>, rarity: string, season: string): seq<(CardStandard, string)> {
    Somes(KeptEach(dump, rarity, season))
  }

  /** The `cards` list of `find_rarities`: season 1 first, then season 2. */
  function RaritiesOf(season1: seq<CardStandard>, season2: seq<CardStandard>, rarity: string): seq<(CardStandard, string)> {
    SelectedOf(season1, rarity, "1") + SelectedOf(season2, rarity, "2")
  }

  /** The records written for the selected cards, in order. */
  function Records(cards: seq<(CardStandard, string)>): (r: seq<RarityRecord>)
    ensures |r| == |cards| && forall i :: 0 <= i < |cards| ==> r[i] == Record(cards[i].0, cards[i].1)
  {
    seq(|cards|, i requires 0 <= i < |cards| => Record(cards[i].0, cards[i].1))
  }

  /** The selection of one dump: each card of the rarity with the given
      season, and nothing else. */
  lemma SelectedMembers(dump: seq<CardStandard>, rarity: string, season: string, card: CardStandard, s: string)
    ensures |SelectedOf(dump, rarity, season)| <= |dump|
    ensures (card, s) in SelectedOf(dump, rarity, season) <==> card in dump && card.rarity == rarity && s == season
  {
    var each := KeptEach(dump, rarity, season);
    SomesIn(each, (card, s));
    if card in dump && card.rarity == rarity && s == season {
      var i :| 0 <= i < |dump| && dump[i] == card;
      assert each[i] == Some((card, s));
    }
  }

  /** A card is saved exactly when it has the rarity, with the season of the
      dump it came from; all season 1 cards come before the season 2 ones. */
  lemma RaritiesMembers(season1: seq<CardStandard>, season2: seq<CardStandard>, rarity: string, card: CardStandard, s: string)
    ensures (card, s) in RaritiesOf(season1, season2, rarity) <==>
      card.rarity == rarity && ((s == "1" && card in season1) || (s == "2" && card in season2))
  {
    SelectedMembers(season1, rarity, "1", card, s);
    SelectedMembers(season2, rarity, "2", card, s);
  }

  /** Every season 1 card precedes every season 2 card. */
  lemma RaritiesSeasonOrder(season1: seq<CardStandard>, season2: seq<CardStandard>, rarity: string, i: nat)
    requires i < |RaritiesOf(season1, season2, rarity)|
    ensures RaritiesOf(season1, season2, rarity)[i].1 == "1" <==> i < |SelectedOf(season1, rarity, "1")|
  {
    var first := SelectedOf(season1, rarity, "1");
    var second := SelectedOf(season2, rarity, "2");
    var all := RaritiesOf(season1, season2, rarity);
    if i < |first| {
      assert all[i] == first[i];
      assert first[i] in first;
      SelectedMembers(season1, rarity, "1", first[i].0, first[i].1);
    } else {
      assert all[i] == second[i - |first|];
      assert second[i - |first|] in second;
      SelectedMembers(season2, rarity, "2", all[i].0, all[i].1);
    }
  }

  /** The two dump loops of `find_rarities`. */
  method CollectRarity(season1: seq<CardStandard>, season2: seq<CardStandard>, rarity: string)
    returns (cards: seq<(CardStandard, string)>)
    ensures cards == RaritiesOf(season1, season2, rarity)
  {
    ghost var first := KeptEach(season1, rarity, "1");
    ghost var second := KeptEach(season2, rarity, "2");
    cards := [];
    var i := 0;
    while i < |season1|
      invariant 0 <= i <= |season1|
      invariant cards == Somes(first[..i])
    {
      SomesNext(first, i);
      if season1[i].rarity == rarity {
        cards := cards + [(season1[i], "1")];
      }
      i := i + 1;
    }
    assert first[..|season1|] == first;
    ghost var done := cards;
    var j := 0;
    while j < |season2|
      invariant 0 <= j <= |season2|
      invariant cards == done + Somes(second[..j])
    {
      SomesNext(second, j);
      if season2[j].rarity == rarity {
        cards := cards + [(season2[j], "2")];
      }
      j := j + 1;
    }
    assert second[..|season2|] == second;
  }

  /** The saved files: from a path to the records of the file there. */
  class RarityFiles {
    var files: map<string, seq<RarityRecord>>

    constructor(files: map<string, seq<RarityRecord>>)
      ensures this.files == files
    {
      this.files := files;
    }

    /** `find_rarities`: (re)writes the file of the rarity. */
    method FindRarities(season1: seq<CardStandard>, season2: seq<CardStandard>, rarity: string)
      modifies this
      ensures files == old(files)[ResolvePath(rarity) := Records(RaritiesOf(season1, season2, rarity))]
    {
      var cards := CollectRarity(season1, season2, rarity);
      files := files[ResolvePath(rarity) := Records(cards)];
    }

    /** `verify_rarity_data`: writes the file only when there is none; an
        existing file is kept as it is, whatever it holds. */
    method VerifyRarityData(season1: seq<CardStandard>, season2: seq<CardStandard>, rarity: string)
      modifies this
      ensures ResolvePath(rarity) in old(files) ==> files == old(files)
      ensures ResolvePath(rarity) !in old(files) ==>
        files == old(files)[ResolvePath(rarity) := Records(RaritiesOf(season1, season2, rarity))]
      ensures ResolvePath(rarity) in files
    {
      if ResolvePath(rarity) !in files {
        FindRarities(season1, season2, rarity);
      }
    }
  }
}

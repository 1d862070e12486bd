/**
 * Card activity in a region (cards/regioncardpop.py and the older
 * regioncardpop.py): the residents of a region that trade cards, less those
 * of a previous run, and the tagged output file that a later run reads back
 * as its previous list.  The region's "nations" shard and the deck info
 * request are inputs.
 */
module RegionCardPop {
  import opened Outcomes
  import opened Strings
  import opened NationTags

  /** `DeckInfo`: the card deck summary of one nation. */
  datatype DeckInfo = DeckInfo(
    bank: real, deckCapacity: int, deckValue: real, id: int,
    lastPackOpened: Option<int>, lastValued: Option<int>,
    name: string, numCards: int, rank: int, regionRank: int)

  /** `requester.nation(n).deck_info()`. */
  type DeckOracle = string -> DeckInfo

  /** A nation takes part in cards when it holds a card, has bank, or has
      ever valued its deck or opened a pack; a zero timestamp counts as never. */
  predicate Qualifies(info: DeckInfo) {
    info.numCards > 0 || info.bank > 0.0 || !Falsy(info.lastValued) || !Falsy(info.lastPackOpened)
  }

  /** A missing or empty previous collection is the empty set. */
  function PreviousSet(previous: Option<set<string>>): (r: set<string>)
    ensures previous.None? ==> r == {}
    ensures previous.Some? ==> r == previous.value
  {
    if previous.None? || previous.value == {} then {} else previous.value
  }

  /** The residents of the region: the "nations" shard split at ':'. */
  function Residents(nationsShard: string): seq<string> {
    Split(nationsShard, ":")
  }

  /** The deck info request made for one resident: none for a previous one. */
  function Request(nation: string, previous: set<string>): Option<string> {
    if nation !in previous then Some(nation) else None
  }

  /** What the loop keeps of one resident. */
  function Participant(deck: DeckOracle, nation: string, previous: set<string>): Option<string> {
    if nation !in previous && Qualifies(deck(nation)) then Some(nation) else None
  }

  function RequestEach(residents: seq<string>, previous: set<string>): (r: seq<Option<string>>)
    ensures |r| == |residents| && forall i :: 0 <= i < |residents| ==> r[i] == Request(residents[i], previous)
  {
    seq(|residents|, i requires 0 <= i < |residents| => Request(residents[i], previous))
  }

  function ParticipantEach(deck: DeckOracle, residents: seq<string>, previous: set<string>): (r: seq<Option<string>>)
    ensures |r| == |residents| && forall i :: 0 <= i < |residents| ==> r[i] == Participant(deck, residents[i], previous)
  {
    seq(|residents|, i requires 0 <= i < |residents| => Participant(deck, residents[i], previous))
  }

  /** The nations whose deck info is requested, in resident order. */
  function RequestsOf(residents: seq<string>, previous: set<string>): seq<string> {
    Somes(RequestEach(residents, previous))
  }

  /** The participants among the residents, in resident order. */
  function ParticipantsOf(deck: DeckOracle, residents: seq<string>, previous: set<string>): seq<string> {
    Somes(ParticipantEach(deck, residents, previous))
  }

  /** A resident is a participant exactly when it is not a previous one and
      its deck qualifies; there are never more participants than residents. */
  lemma ParticipantsMembers(deck: DeckOracle, residents: seq<string>, previous: set<string>, nation: string)
    ensures |ParticipantsOf(deck, residents, previous)| <= |residents|
    ensures nation in ParticipantsOf(deck, residents, previous) <==>
      nation in residents && nation !in previous && Qualifies(deck(nation))
  {
    var each := ParticipantEach(deck, residents, previous);
    SomesIn(each, nation);
    if nation in residents && nation !in previous && Qualifies(deck(nation)) {
      var i :| 0 <= i < |residents| && residents[i] == nation;
      assert each[i] == Some(nation);
    }
  }

  /** Only residents outside the previous collection are requested, each
      once per appearance, so at most one request per resident. */
  lemma RequestsMembers(residents: seq<string>, previous: set<string>, nation: string)
    ensures |RequestsOf(residents, previous)| <= |residents|
    ensures nation in RequestsOf(residents, previous) <==> nation in residents && nation !in previous
  {
    var each := RequestEach(residents, previous);
    SomesIn(each, nation);
    if nation in residents && nation !in previous {
      var i :| 0 <= i < |residents| && residents[i] == nation;
      assert each[i] == Some(nation);
    }
  }

  /** Residents are visited in order: the participants of two runs of
      residents are those of each run, one after the other. */
  lemma ParticipantsAppend(deck: DeckOracle, a: seq<string>, b: seq<string>, previous: set<string>)
    ensures ParticipantsOf(deck, a + b, previous) == ParticipantsOf(deck, a, previous) + ParticipantsOf(deck, b, previous)
  {
    assert ParticipantEach(deck, a + b, previous) == ParticipantEach(deck, a, previous) + ParticipantEach(deck, b, previous);
    SomesAppend(ParticipantEach(deck, a, previous), ParticipantEach(deck, b, previous));
  }

  /** The loop of `check_region` over the residents. */
  method VisitResidents(deck: DeckOracle, residents: seq<string>, skip: set<string>)
    returns (participants: seq<string>, requested: seq<string>)
    ensures participants == ParticipantsOf(deck, residents, skip)
    ensures requested == RequestsOf(residents, skip)
  {
    ghost var each := ParticipantEach(deck, residents, skip);
    ghost var asked := RequestEach(residents, skip);
    participants := [];
    requested := [];
    var i := 0;
    while i < |residents|
      invariant 0 <= i <= |residents|
      invariant participants == Somes(each[..i])
      invariant requested == Somes(asked[..i])
    {
      var nation := residents[i];
      SomesNext(each, i);
      SomesNext(asked, i);
      if nation !in skip {
        requested := requested + [nation];
        var info := deck(nation);
        if info.numCards > 0 || info.bank > 0.0 || !Falsy(info.lastValued) || !Falsy(info.lastPackOpened) {
          participants := participants + [nation];
        }
      }
      i := i + 1;
    }
    assert each[..|residents|] == each;
    assert asked[..|residents|] == asked;
  }

  /** `check_region`: the participants, and the nations whose deck info was
      requested along the way. */
  method CheckRegion(deck: DeckOracle, nationsShard: string, previous: Option<set<string>>)
    returns (participants: seq<string>, requested: seq<string>)
    ensures participants == ParticipantsOf(deck, Residents(nationsShard), PreviousSet(previous))
    ensures requested == RequestsOf(Residents(nationsShard), PreviousSet(previous))
  {
    var skip: set<string> := {};
    if previous.Some? && previous.value != {} {
      skip := previous.value;
    }
    var residents := Split(nationsShard, ":");
    participants, requested := VisitResidents(deck, residents, skip);
  }

  // ---- the output writers ----

  /** The output file of cards/regioncardpop.py: the tagged participants back
      to back on one line, then a newline.  Read back by lines, it is that one
      line, for names without newlines. */
  function CardsOutput(participants: seq<string>): (r: string)
    ensures |r| >= 1 && r[|r| - 1] == '\n' && r[..|r| - 1] == Tagged(participants)
    ensures (forall n <- participants :: '\n' !in n) ==> ReadLines(r) == [r]
  {
    var r := Tagged(participants) + "\n";
    assert (forall n <- participants :: '\n' !in n) ==> ReadLines(r) == [r] by {
      if forall n <- participants :: '\n' !in n {
        TaggedNoNewline(participants);
        ReadOneLine(Tagged(participants));
      }
    }
    r
  }

  /** The tagged participants, one by one. */
  function Tags(participants: seq<string>): (r: seq<string>)
    ensures |r| == |participants| && forall i :: 0 <= i < |participants| ==> r[i] == Tag(participants[i])
  {
    seq(|participants|, i requires 0 <= i < |participants| => Tag(participants[i]))
  }

  /** The output file of regioncardpop.py: each tagged participant on its own line. */
  function RootOutput(participants: seq<string>): string {
    Terminated(Tags(participants), "\n")
  }

  /** The older writer puts each participant on a line of its own: splitting
      its output at the newlines gives the tagged names and an empty last
      piece, for names without newlines. */
  lemma RootOutputLines(participants: seq<string>)
    requires forall n <- participants :: '\n' !in n
    ensures Split(RootOutput(participants), "\n") == Tags(participants) + [""]
  {
    var tags := Tags(participants);
    if tags == [] {
      assert RootOutput(participants) == "";
      assert Split("", "\n") == [""];
      return;
    }
    forall l <- tags ensures '\n' !in l {
      var i :| 0 <= i < |tags| && tags[i] == l;
      assert '\n' !in Open && '\n' !in Close;
    }
    JoinTerminated(tags, "\n");
    SplitJoinedLines(tags);
  }

  // ---- the previous-file reader ----

  /** `f.readlines()`: each line with its newline, and a last line without
      one when the text does not end with a newline. */
  function ReadLines(content: string): (r: seq<string>)
    ensures forall i :: 0 <= i < |r| ==> r[i] != ""
  {
    var pieces := Split(content, "\n");
    var k := |pieces| - 1;
    seq(k, i requires 0 <= i < k => pieces[i] + "\n") + (if pieces[k] == "" then [] else [pieces[k]])
  }

  /** A text that is one line and its newline reads as that one line. */
  lemma ReadOneLine(line: string)
    requires '\n' !in line
    ensures ReadLines(line + "\n") == [line + "\n"]
  {
    assert "\n" == ['\n'];
    SplitAtFirst(line + "\n", line, "\n", "");
    assert Split("", "\n") == [""];
  }

  /** The names of one line: drop the opening tags, split at the closing
      ones, and leave out the last piece. */
  function LineNames(line: string): (r: seq<string>) {
    var pieces := Split(Replace(line, Open, ""), Close);
    pieces[..|pieces| - 1]
  }

  /** The previous collection read from the lines of a file. */
  function PreviousNames(lines: seq<string>): set<string> {
    set line, nation | line in lines && nation in LineNames(line) :: nation
  }

  /** The names of the line the new writer produces are the participants, in order. */
  lemma LineNamesTagged(participants: seq<string>)
    requires forall n <- participants :: NoTagText(n)
    ensures LineNames(Tagged(participants) + "\n") == participants
  {
    ReplaceOpenTags(participants, "\n");
    assert Replace("\n", Open, "") == "\n";
    SplitCloseTags(participants, "\n");
    assert Split("\n", Close) == ["\n"];
  }

  /** Reading back the file the new writer produced gives exactly the
      participants, for names without tag text or newlines. */
  lemma PreviousRoundTrip(participants: seq<string>)
    requires forall n <- participants :: NoTagText(n) && '\n' !in n
    ensures PreviousNames(ReadLines(CardsOutput(participants))) == set n | n in participants
  {
    TaggedNoNewline(participants);
    ReadOneLine(Tagged(participants));
    LineNamesTagged(participants);
    var line := Tagged(participants) + "\n";
    assert ReadLines(CardsOutput(participants)) == [line];
  }
}

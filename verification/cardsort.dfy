/**
 * Sorting the trading card decks of nations by rarity (cards/cardsort.py,
 * and the older cardsort.py, which bins by the `category` of its card
 * objects in the same way).  The result maps each rarity to the nations
 * holding cards of it, and each such nation to its count of every card.
 * The deck request is an oracle from nation name to deck.
 */
module CardSort {
  import opened Outcomes
  import opened Strings
  import opened Dicts
  import opened Models

  /** A nation's bin: each card with its count, in first-seen order. */
  type Counts = seq<(CardIdentifier, int)>

  /** The count a bin holds for a card, 0 when the card is absent. */
  function CountOf(counts: Counts, card: CardIdentifier): int
    decreases |counts|
  {
    if counts == [] then 0
    else if counts[0].0 == card then counts[0].1
    else CountOf(counts[1..], card)
  }

  /** The cards of a bin, in order. */
  function CardKeys(counts: Counts): (r: seq<CardIdentifier>)
    ensures |r| == |counts|
    decreases |counts|
  {
    if counts == [] then [] else [counts[0].0] + CardKeys(counts[1..])
  }

  /** `nationDict[card] += 1`, or `nationDict[card] = 1` after the KeyError:
      the card's count goes up by one and no other count changes. */
  function Bump(counts: Counts, card: CardIdentifier): (r: Counts)
    ensures forall q :: CountOf(r, q) == CountOf(counts, q) + (if q == card then 1 else 0)
    decreases |counts|
  {
    if counts == [] then [(card, 1)]
    else if counts[0].0 == card then [(card, counts[0].1 + 1)] + counts[1..]
    else
      var r := [counts[0]] + Bump(counts[1..], card);
      assert r[1..] == Bump(counts[1..], card);
      r
  }

  /** A card already in the bin keeps its place; a new card goes at the end. */
  lemma {:induction false} BumpKeys(counts: Counts, card: CardIdentifier)
    ensures CardKeys(Bump(counts, card)) == if card in CardKeys(counts) then CardKeys(counts) else CardKeys(counts) + [card]
    decreases |counts|
  {
    var r := Bump(counts, card);
    if counts != [] && counts[0].0 != card {
      BumpKeys(counts[1..], card);
      assert r[1..] == Bump(counts[1..], card);
    }
  }

  /** `{rarity: {nation: {card: quantity}}}`. */
  type Bins = Dict<Dict<Counts>>

  /** The rarity keys of `out`, in order; "" catches cards without a category. */
  const Rarities: seq<string> := ["common", "uncommon", "rare", "ultra-rare", "epic", "legendary", ""]

  /** `out` before any deck is read: every rarity with no nation. */
  const Initial: Bins := [("common", []), ("uncommon", []), ("rare", []), ("ultra-rare", []),
                          ("epic", []), ("legendary", []), ("", [])]

  /** One card of one nation's deck: `out[card.rarity]` raises KeyError for a
      rarity outside the seven keys; otherwise the nation's bin under that
      rarity is created if needed and the card's count goes up by one. */
  function AddCard(out: Bins, nation: string, card: CardIdentifier): (r: Result<Bins>)
    ensures r.Err? <==> !In(Plain, out, card.rarity)
    ensures r.Err? ==> r.error == KeyError(card.rarity)
    ensures r.Ok? ==> Keys(r.value) == Keys(out)
  {
    var rarityDict :- Get(Plain, out, card.rarity);
    Ok(Put(Plain, out, card.rarity, Put(Plain, rarityDict, nation, Bump(BinOf(rarityDict, nation), card))))
  }

  /** The bin of a nation under one rarity, empty when it has none yet. */
  function BinOf(rarityDict: Dict<Counts>, nation: string): Counts {
    match Get(Plain, rarityDict, nation) case Ok(d) => d case Err(_) => []
  }

  /** The cards of one deck, each with the nation that holds it. */
  function DeckEvents(nation: string, deck: seq<CardIdentifier>): (r: seq<(string, CardIdentifier)>)
    ensures |r| == |deck| && forall i :: 0 <= i < |deck| ==> r[i] == (nation, deck[i])
  {
    seq(|deck|, i requires 0 <= i < |deck| => (nation, deck[i]))
  }

  /** Every card of every deck, nation by nation, in deck order. */
  function Events(decks: string -> seq<CardIdentifier>, nations: seq<string>): seq<(string, CardIdentifier)>
    decreases |nations|
  {
    if nations == [] then []
    else
      var n := |nations| - 1;
      Events(decks, nations[..n]) + DeckEvents(nations[n], decks(nations[n]))
  }

  /** The cards added in order, stopping at the first KeyError. */
  function Apply(out: Bins, events: seq<(string, CardIdentifier)>): Result<Bins>
    decreases |events|
  {
    if events == [] then Ok(out)
    else
      match Apply(out, events[..|events| - 1])
      case Err(e) => Err(e)
      case Ok(before) => AddCard(before, events[|events| - 1].0, events[|events| - 1].1)
  }

  /** `sorted_cards` as a value. */
  function SortedCards(decks: string -> seq<CardIdentifier>, nations: seq<string>): Result<Bins> {
    Apply(Initial, Events(decks, nations))
  }

  /** One more card is one more `AddCard`, unless an earlier one failed. */
  lemma ApplySnoc(out: Bins, events: seq<(string, CardIdentifier)>, e: (string, CardIdentifier))
    ensures Apply(out, events + [e]) ==
      match Apply(out, events) case Err(x) => Err(x) case Ok(before) => AddCard(before, e.0, e.1)
  {
    assert (events + [e])[..|events|] == events;
  }

  /** Adding a batch of cards after another is adding them all in turn. */
  lemma {:induction false} ApplyAppend(out: Bins, a: seq<(string, CardIdentifier)>, b: seq<(string, CardIdentifier)>)
    ensures Apply(out, a + b) == if Apply(out, a).Err? then Apply(out, a) else Apply(Apply(out, a).value, b)
    decreases |b|
  {
    if b == [] {
      assert a + b == a;
    } else {
      var n := |b| - 1;
      var init := b[..n];
      assert a + b == (a + init) + [b[n]];
      assert b == init + [b[n]];
      ApplyAppend(out, a, init);
      ApplySnoc(out, a + init, b[n]);
      if Apply(out, a).Ok? {
        ApplySnoc(Apply(out, a).value, init, b[n]);
      }
    }
  }

  /** The inner loop of `sorted_cards`: one nation's deck, card by card. */
  method SortDeck(out: Bins, nation: string, deck: seq<CardIdentifier>) returns (r: Result<Bins>)
    ensures r == Apply(out, DeckEvents(nation, deck))
  {
    ghost var events := DeckEvents(nation, deck);
    var current := out;
    var i := 0;
    while i < |deck|
      invariant 0 <= i <= |deck|
      invariant Apply(out, events[..i]) == Ok(current)
    {
      var card := deck[i];
      assert events[..i + 1][..i] == events[..i] && events[..i + 1][i] == (nation, card);
      var rarityDict := Get(Plain, current, card.rarity);
      if rarityDict.Err? {
        ApplyAppend(out, events[..i + 1], events[i + 1..]);
        assert events[..i + 1] + events[i + 1..] == events;
        return Err(rarityDict.error);
      }
      var nationDict := BinOf(rarityDict.value, nation);
      current := Put(Plain, current, card.rarity, Put(Plain, rarityDict.value, nation, Bump(nationDict, card)));
      i := i + 1;
    }
    assert events[..|deck|] == events;
    return Ok(current);
  }

  /** The events of two lists of nations, one after the other. */
  lemma {:induction false} EventsAppend(decks: string -> seq<CardIdentifier>, a: seq<string>, b: seq<string>)
    ensures Events(decks, a + b) == Events(decks, a) + Events(decks, b)
    decreases |b|
  {
    if b == [] {
      assert a + b == a;
    } else {
      var n := |b| - 1;
      var last := DeckEvents(b[n], decks(b[n]));
      assert (a + b)[..|a + b| - 1] == a + b[..n];
      assert (a + b)[|a + b| - 1] == b[n];
      assert Events(decks, a + b) == Events(decks, a + b[..n]) + last;
      EventsAppend(decks, a, b[..n]);
      assert Events(decks, b) == Events(decks, b[..n]) + last;
    }
  }

  /** `sorted_cards`: the decks of the nations, one after another. */
  method Sort(decks: string -> seq<CardIdentifier>, nations: seq<string>) returns (r: Result<Bins>)
    ensures r == SortedCards(decks, nations)
  {
    var out := Initial;
    var i := 0;
    while i < |nations|
      invariant 0 <= i <= |nations|
      invariant Apply(Initial, Events(decks, nations[..i])) == Ok(out)
    {
      var nation := nations[i];
      assert nations[..i + 1][..i] == nations[..i];
      ApplyAppend(Initial, Events(decks, nations[..i]), DeckEvents(nation, decks(nation)));
      var next := SortDeck(out, nation, decks(nation));
      if next.Err? {
        EventsAppend(decks, nations[..i + 1], nations[i + 1..]);
        assert nations[..i + 1] + nations[i + 1..] == nations;
        ApplyAppend(Initial, Events(decks, nations[..i + 1]), Events(decks, nations[i + 1..]));
        return next;
      }
      out := next.value;
      i := i + 1;
    }
    assert nations[..|nations|] == nations;
    return Ok(out);
  }

  // ---- What the bins hold ----

  /** Every level of `out` has distinct keys, as Python dicts do. */
  predicate WellFormed(out: Bins) {
    Unique(Plain, out) && forall i :: 0 <= i < |out| ==> Unique(Plain, out[i].1)
  }

  /** `out[r][n][c]`, or 0 when any of the three keys is absent. */
  function Count(out: Bins, r: string, n: string, c: CardIdentifier): int {
    match Get(Plain, out, r)
    case Err(_) => 0
    case Ok(rd) =>
      match Get(Plain, rd, n)
      case Err(_) => 0
      case Ok(nd) => CountOf(nd, c)
  }

  /** Whether nation `n` has a bin under rarity `r`. */
  predicate Present(out: Bins, r: string, n: string) {
    Get(Plain, out, r).Ok? && In(Plain, Get(Plain, out, r).value, n)
  }

  /** What one card does: its rarity's dict, which has distinct keys, gets
      the nation's bin with the card bumped. */
  lemma AddCardIs(out: Bins, n': string, c': CardIdentifier)
    requires WellFormed(out) && AddCard(out, n', c').Ok?
    ensures Unique(Plain, Get(Plain, out, c'.rarity).value)
    ensures var rd := Get(Plain, out, c'.rarity).value;
      AddCard(out, n', c').value == Put(Plain, out, c'.rarity, Put(Plain, rd, n', Bump(BinOf(rd, n'), c')))
  {
    var rd := Get(Plain, out, c'.rarity).value;
    var i :| 0 <= i < |out| && Norm(Plain, out[i].0) == Norm(Plain, c'.rarity) && out[i].1 == rd;
  }

  /** One card keeps every level's keys distinct. */
  lemma AddCardWellFormed(out: Bins, n': string, c': CardIdentifier)
    requires WellFormed(out) && AddCard(out, n', c').Ok?
    ensures WellFormed(AddCard(out, n', c').value)
  {
    AddCardIs(out, n', c');
    var rd := Get(Plain, out, c'.rarity).value;
    PutEntries(Plain, out, c'.rarity, Put(Plain, rd, n', Bump(BinOf(rd, n'), c')));
  }

  /** One card adds one to its own count, under its own rarity and nation,
      and changes no other count. */
  lemma AddCardCount(out: Bins, n': string, c': CardIdentifier, r: string, n: string, c: CardIdentifier)
    requires WellFormed(out) && AddCard(out, n', c').Ok?
    ensures Count(AddCard(out, n', c').value, r, n, c) ==
      Count(out, r, n, c) + (if r == c'.rarity && n == n' && c == c' then 1 else 0)
  {
    AddCardIs(out, n', c');
    var rd := Get(Plain, out, c'.rarity).value;
    var bin := Put(Plain, rd, n', Bump(BinOf(rd, n'), c'));
    if r == c'.rarity {
      GetPutSame(Plain, out, c'.rarity, bin, r);
      if n == n' {
        GetPutSame(Plain, rd, n', Bump(BinOf(rd, n'), c'), n);
      } else {
        GetPutOther(Plain, rd, n', Bump(BinOf(rd, n'), c'), n);
      }
    } else {
      GetPutOther(Plain, out, c'.rarity, bin, r);
    }
  }

  /** One card creates its nation's bin under its rarity, if needed, and no other. */
  lemma AddCardPresent(out: Bins, n': string, c': CardIdentifier, r: string, n: string)
    requires WellFormed(out) && AddCard(out, n', c').Ok?
    ensures Present(AddCard(out, n', c').value, r, n) <==> Present(out, r, n) || (r == c'.rarity && n == n')
  {
    AddCardIs(out, n', c');
    var rd := Get(Plain, out, c'.rarity).value;
    var bin := Put(Plain, rd, n', Bump(BinOf(rd, n'), c'));
    if r == c'.rarity {
      GetPutSame(Plain, out, c'.rarity, bin, r);
      InPut(Plain, rd, n', Bump(BinOf(rd, n'), c'), n);
    } else {
      GetPutOther(Plain, out, c'.rarity, bin, r);
    }
  }

  /** Cards added in turn keep every level's keys distinct. */
  lemma {:induction false} ApplyWellFormed(out: Bins, events: seq<(string, CardIdentifier)>)
    requires WellFormed(out) && Apply(out, events).Ok?
    ensures WellFormed(Apply(out, events).value)
    decreases |events|
  {
    if events != [] {
      var k := |events| - 1;
      ApplyWellFormed(out, events[..k]);
      AddCardWellFormed(Apply(out, events[..k]).value, events[k].0, events[k].1);
    }
  }

  /** The count of an event in a list one longer. */
  lemma MultisetSnoc<T>(xs: seq<T>, e: T, x: T)
    ensures multiset(xs + [e])[x] == multiset(xs)[x] + (if e == x then 1 else 0)
  {
  }

  /** Cards added in turn: each card counts once, under its own rarity and
      nation, however many times it occurs. */
  lemma {:induction false} ApplyCount(out: Bins, events: seq<(string, CardIdentifier)>, r: string, n: string, c: CardIdentifier)
    requires WellFormed(out) && Apply(out, events).Ok?
    ensures Count(Apply(out, events).value, r, n, c) ==
      Count(out, r, n, c) + (if r == c.rarity then multiset(events)[(n, c)] else 0)
    decreases |events|
  {
    if events != [] {
      var k := |events| - 1;
      var init := events[..k];
      var e := events[k];
      SnocParts(events);
      ApplySnoc(out, init, e);
      ApplyCount(out, init, r, n, c);
      ApplyWellFormed(out, init);
      AddCardCount(Apply(out, init).value, e.0, e.1, r, n, c);
      MultisetSnoc(init, e, (n, c));
    }
  }

  /** Whether some card of nation `n` has rarity `r`. */
  predicate Holds(events: seq<(string, CardIdentifier)>, r: string, n: string) {
    exists i :: 0 <= i < |events| && events[i].0 == n && events[i].1.rarity == r
  }

  lemma HoldsLast(events: seq<(string, CardIdentifier)>, r: string, n: string)
    requires events != []
    ensures var k := |events| - 1;
      Holds(events, r, n) <==> Holds(events[..k], r, n) || (events[k].0 == n && events[k].1.rarity == r)
  {
    var k := |events| - 1;
    if Holds(events, r, n) {
      var i :| 0 <= i < |events| && events[i].0 == n && events[i].1.rarity == r;
      if i < k {
        assert events[..k][i] == events[i];
      }
    }
    if Holds(events[..k], r, n) {
      var i :| 0 <= i < k && events[..k][i].0 == n && events[..k][i].1.rarity == r;
      assert events[i] == events[..k][i];
    }
  }

  /** A nation has a bin under a rarity exactly when it had one before or
      one of its cards added has that rarity. */
  lemma {:induction false} ApplyPresent(out: Bins, events: seq<(string, CardIdentifier)>, r: string, n: string)
    requires WellFormed(out) && Apply(out, events).Ok?
    ensures Present(Apply(out, events).value, r, n) <==> Present(out, r, n) || Holds(events, r, n)
    decreases |events|
  {
    if events != [] {
      var k := |events| - 1;
      var init := events[..k];
      var e := events[k];
      ApplyPresent(out, init, r, n);
      ApplyWellFormed(out, init);
      AddCardPresent(Apply(out, init).value, e.0, e.1, r, n);
      HoldsLast(events, r, n);
    }
  }

  /** The bins keep the rarity keys they start with. */
  lemma {:induction false} ApplyKeys(out: Bins, events: seq<(string, CardIdentifier)>)
    requires Apply(out, events).Ok?
    ensures Keys(Apply(out, events).value) == Keys(out)
    decreases |events|
  {
    if events != [] {
      var k := |events| - 1;
      ApplyUnfold(out, events);
      ApplyKeys(out, events[..k]);
    }
  }

  /** Cards that were all added were added one after the other. */
  lemma ApplyUnfold(out: Bins, events: seq<(string, CardIdentifier)>)
    requires events != [] && Apply(out, events).Ok?
    ensures var k := |events| - 1;
      Apply(out, events[..k]).Ok? && Apply(out, events) == AddCard(Apply(out, events[..k]).value, events[k].0, events[k].1)
  {
  }

  /** A Plain key is present exactly when it is one of the keys. */
  lemma InPlain<V>(d: Dict<V>, k: string)
    ensures In(Plain, d, k) <==> k in Keys(d)
  {
    assert NormKeys(Plain, d) == Keys(d);
  }

  /** Whether the cards up to `i` all have one of the rarities `keys`. */
  predicate Known(events: seq<(string, CardIdentifier)>, keys: seq<string>, i: nat)
    requires i <= |events|
  {
    forall j :: 0 <= j < i ==> events[j].1.rarity in keys
  }

  /** Adding succeeds exactly when every card's rarity is a key. */
  lemma {:induction false} ApplySucceeds(out: Bins, events: seq<(string, CardIdentifier)>)
    ensures Apply(out, events).Ok? <==> Known(events, Keys(out), |events|)
    decreases |events|
  {
    if events != [] {
      var k := |events| - 1;
      ApplySucceeds(out, events[..k]);
      KnownLast(events, Keys(out));
      ApplyLastSucceeds(out, events);
    }
  }

  /** The last card is added exactly when the cards before it were and its
      rarity is a key. */
  lemma ApplyLastSucceeds(out: Bins, events: seq<(string, CardIdentifier)>)
    requires events != []
    ensures var k := |events| - 1;
      Apply(out, events).Ok? <==> Apply(out, events[..k]).Ok? && events[k].1.rarity in Keys(out)
  {
    var k := |events| - 1;
    if Apply(out, events[..k]).Ok? {
      ApplyKeys(out, events[..k]);
      InPlain(Apply(out, events[..k]).value, events[k].1.rarity);
    }
  }

  /** All cards have known rarities exactly when those before the last do
      and the last does. */
  lemma KnownLast(events: seq<(string, CardIdentifier)>, keys: seq<string>)
    requires events != []
    ensures var k := |events| - 1;
      Known(events, keys, |events|) <==> Known(events[..k], keys, k) && events[k].1.rarity in keys
  {
    var k := |events| - 1;
    assert forall j :: 0 <= j < k ==> events[..k][j] == events[j];
  }

  /** When adding fails, it is with KeyError for the first card whose rarity
      is not a key. */
  lemma {:induction false} ApplyError(out: Bins, events: seq<(string, CardIdentifier)>, i: nat)
    requires i < |events| && Known(events, Keys(out), i) && events[i].1.rarity !in Keys(out)
    ensures Apply(out, events) == Err(KeyError(events[i].1.rarity))
  {
    var init := events[..i];
    var e := events[i];
    assert events[..i + 1] == init + [e];
    ApplySnoc(out, init, e);
    ApplySucceeds(out, init);
    assert Known(init, Keys(out), i) by {
      assert forall j :: 0 <= j < i ==> init[j] == events[j];
    }
    ApplyKeys(out, init);
    InPlain(Apply(out, init).value, e.1.rarity);
    ApplyAppend(out, events[..i + 1], events[i + 1..]);
    assert events[..i + 1] + events[i + 1..] == events;
  }

  // ---- The result of `sorted_cards` ----

  /** How often nation `n` and card `c` occur among one deck's events. */
  lemma {:induction false} DeckEventsCount(m: string, deck: seq<CardIdentifier>, n: string, c: CardIdentifier)
    ensures multiset(DeckEvents(m, deck))[(n, c)] == if m == n then multiset(deck)[c] else 0
    decreases |deck|
  {
    if deck != [] {
      var k := |deck| - 1;
      SnocParts(deck);
      assert DeckEvents(m, deck) == DeckEvents(m, deck[..k]) + [(m, deck[k])];
      DeckEventsCount(m, deck[..k], n, c);
    }
  }

  /** A card held `j` times by a nation listed `i` times is added `i * j` times. */
  lemma {:induction false} EventsCount(decks: string -> seq<CardIdentifier>, nations: seq<string>, n: string, c: CardIdentifier)
    ensures multiset(Events(decks, nations))[(n, c)] == multiset(nations)[n] * multiset(decks(n))[c]
    decreases |nations|
  {
    if nations != [] {
      var k := |nations| - 1;
      var m := nations[k];
      var init := nations[..k];
      var a := Events(decks, init);
      var b := DeckEvents(m, decks(m));
      assert Events(decks, nations) == a + b;
      ConcatCount(a, b, (n, c));
      LastCount(nations, n);
      EventsCount(decks, init, n, c);
      DeckEventsCount(m, decks(m), n, c);
      CountStep(multiset(a)[(n, c)], multiset(b)[(n, c)], multiset(init)[n], multiset(decks(n))[c], m == n);
    }
  }

  lemma ConcatCount<T>(a: seq<T>, b: seq<T>, x: T)
    ensures multiset(a + b)[x] == multiset(a)[x] + multiset(b)[x]
  {
  }

  lemma LastCount<T>(xs: seq<T>, x: T)
    requires xs != []
    ensures multiset(xs)[x] == multiset(xs[..|xs| - 1])[x] + (if xs[|xs| - 1] == x then 1 else 0)
  {
    SnocParts(xs);
  }

  lemma CountStep(before: int, added: int, i: int, j: int, hit: bool)
    requires before == i * j && added == (if hit then j else 0)
    ensures before + added == (i + (if hit then 1 else 0)) * j
  {
    if hit {
      MulSucc(i, j);
    }
  }

  lemma MulSucc(i: int, j: int)
    ensures (i + 1) * j == i * j + j
  {
  }

  /** The cards added are exactly the cards in the decks of the listed nations. */
  lemma EventsMember(decks: string -> seq<CardIdentifier>, nations: seq<string>, n: string, c: CardIdentifier)
    ensures (n, c) in Events(decks, nations) <==> n in nations && c in decks(n)
  {
    EventsCount(decks, nations, n, c);
    var i := multiset(nations)[n];
    var j := multiset(decks(n))[c];
    assert i * j > 0 <==> i > 0 && j > 0;
  }

  /** `out` before any deck is read has the seven rarities, and no nation. */
  lemma InitialEmpty(r: string, n: string, c: CardIdentifier)
    ensures WellFormed(Initial) && Keys(Initial) == Rarities
    ensures Count(Initial, r, n, c) == 0 && !Present(Initial, r, n)
  {
    InitialWellFormed();
    assert forall i :: 0 <= i < |Initial| ==> Initial[i].1 == [];
    var empty: Dict<Counts> := [];
    assert !In(Plain, empty, n);
  }

  lemma InitialWellFormed()
    ensures WellFormed(Initial) && Keys(Initial) == Rarities
  {
    assert Keys(Initial) == Rarities;
    RaritiesDistinct();
    assert NormKeys(Plain, Initial) == Rarities;
  }

  /** The seven rarity keys are distinct. */
  lemma RaritiesDistinct()
    ensures Distinct(Rarities)
  {
    assert |Rarities[0]| == 6 && |Rarities[1]| == 8 && |Rarities[2]| == 4 && |Rarities[3]| == 10;
    assert |Rarities[4]| == 4 && |Rarities[5]| == 9 && |Rarities[6]| == 0;
    assert Rarities[2][0] != Rarities[4][0];
  }

  /** `sorted_cards` fails exactly when some card of a listed nation has a
      rarity outside the seven keys. */
  lemma SortedCardsOk(decks: string -> seq<CardIdentifier>, nations: seq<string>)
    ensures SortedCards(decks, nations).Ok? <==>
      forall n, c :: n in nations && c in decks(n) ==> c.rarity in Rarities
  {
    var events := Events(decks, nations);
    InitialEmpty("", "", CardIdentifier(0, "", ""));
    ApplySucceeds(Initial, events);
    if Known(events, Rarities, |events|) {
      forall n, c | n in nations && c in decks(n) ensures c.rarity in Rarities {
        EventsMember(decks, nations, n, c);
      }
    }
    if forall n, c :: n in nations && c in decks(n) ==> c.rarity in Rarities {
      forall j | 0 <= j < |events| ensures events[j].1.rarity in Rarities {
        EventsMember(decks, nations, events[j].0, events[j].1);
      }
    }
  }

  /** What `sorted_cards` returns: the seven rarities, distinct keys at every
      level, and under a card's own rarity each listed nation's count of it
      (once per listing of the nation). */
  lemma SortedCardsCount(decks: string -> seq<CardIdentifier>, nations: seq<string>, r: string, n: string, c: CardIdentifier)
    requires SortedCards(decks, nations).Ok?
    ensures Keys(SortedCards(decks, nations).value) == Rarities
    ensures WellFormed(SortedCards(decks, nations).value)
    ensures Count(SortedCards(decks, nations).value, r, n, c) ==
      if r == c.rarity then multiset(nations)[n] * multiset(decks(n))[c] else 0
  {
    var events := Events(decks, nations);
    InitialEmpty(r, n, c);
    ApplyKeys(Initial, events);
    ApplyWellFormed(Initial, events);
    ApplyCount(Initial, events, r, n, c);
    EventsCount(decks, nations, n, c);
  }

  /** A nation has a bin under a rarity exactly when it is listed and its deck
      holds a card of that rarity. */
  lemma SortedCardsPresent(decks: string -> seq<CardIdentifier>, nations: seq<string>, r: string, n: string)
    requires SortedCards(decks, nations).Ok?
    ensures Present(SortedCards(decks, nations).value, r, n) <==>
      n in nations && exists q :: q in decks(n) && q.rarity == r
  {
    var events := Events(decks, nations);
    InitialEmpty(r, n, CardIdentifier(0, "", ""));
    ApplyPresent(Initial, events, r, n);
    if Holds(events, r, n) {
      var i :| 0 <= i < |events| && events[i].0 == n && events[i].1.rarity == r;
      EventsMember(decks, nations, n, events[i].1);
    }
    if n in nations && exists q :: q in decks(n) && q.rarity == r {
      var q :| q in decks(n) && q.rarity == r;
      EventsMember(decks, nations, n, q);
      var i :| 0 <= i < |events| && events[i] == (n, q);
    }
  }

  // ---- `extracted_cards` and `named_cards` ----

  /** The cards of every nation's bin, bin after bin. */
  function BinCards(bins: Dict<Counts>): seq<CardIdentifier>
    decreases |bins|
  {
    if bins == [] then [] else CardKeys(bins[0].1) + BinCards(bins[1..])
  }

  /** `extracted_cards`: the cards of every bin of every rarity, in order. */
  function ExtractedCards(data: Bins): seq<CardIdentifier>
    decreases |data|
  {
    if data == [] then [] else BinCards(data[0].1) + ExtractedCards(data[1..])
  }

  lemma {:induction false} BinCardsMember(bins: Dict<Counts>, c: CardIdentifier)
    ensures c in BinCards(bins) <==> exists j :: 0 <= j < |bins| && c in CardKeys(bins[j].1)
    decreases |bins|
  {
    if bins != [] {
      BinCardsMember(bins[1..], c);
      if exists j :: 0 <= j < |bins| && c in CardKeys(bins[j].1) {
        var j :| 0 <= j < |bins| && c in CardKeys(bins[j].1);
        if j > 0 {
          assert bins[1..][j - 1] == bins[j];
        }
      }
      if exists j :: 0 <= j < |bins[1..]| && c in CardKeys(bins[1..][j].1) {
        var j :| 0 <= j < |bins[1..]| && c in CardKeys(bins[1..][j].1);
        assert bins[j + 1] == bins[1..][j];
      }
    }
  }

  /** A card is extracted exactly when some nation's bin under some rarity holds it. */
  lemma {:induction false} ExtractedMember(data: Bins, c: CardIdentifier)
    ensures c in ExtractedCards(data) <==>
      exists i, j :: 0 <= i < |data| && 0 <= j < |data[i].1| && c in CardKeys(data[i].1[j].1)
    decreases |data|
  {
    if data != [] {
      ExtractedMember(data[1..], c);
      BinCardsMember(data[0].1, c);
      if exists i, j :: 0 <= i < |data| && 0 <= j < |data[i].1| && c in CardKeys(data[i].1[j].1) {
        var i, j :| 0 <= i < |data| && 0 <= j < |data[i].1| && c in CardKeys(data[i].1[j].1);
        if i > 0 {
          assert data[1..][i - 1] == data[i];
        }
      }
      if exists i, j :: 0 <= i < |data[1..]| && 0 <= j < |data[1..][i].1| && c in CardKeys(data[1..][i].1[j].1) {
        var i, j :| 0 <= i < |data[1..]| && 0 <= j < |data[1..][i].1| && c in CardKeys(data[1..][i].1[j].1);
        assert data[i + 1] == data[1..][i];
      }
    }
  }

  /** A card with a non-zero count is one of the bin's cards. */
  lemma {:induction false} CountOfKeys(counts: Counts, c: CardIdentifier)
    requires CountOf(counts, c) != 0
    ensures c in CardKeys(counts)
    decreases |counts|
  {
    if counts[0].0 != c {
      CountOfKeys(counts[1..], c);
    }
  }

  /** Every card `sorted_cards` counted is among the extracted cards. */
  lemma ExtractedCounted(data: Bins, r: string, n: string, c: CardIdentifier)
    requires Count(data, r, n, c) != 0
    ensures c in ExtractedCards(data)
  {
    var rd := Get(Plain, data, r).value;
    var i :| 0 <= i < |data| && Norm(Plain, data[i].0) == Norm(Plain, r) && data[i].1 == rd;
    var nd := Get(Plain, rd, n).value;
    var j :| 0 <= j < |rd| && Norm(Plain, rd[j].0) == Norm(Plain, n) && rd[j].1 == nd;
    CountOfKeys(nd, c);
    ExtractedMember(data, c);
  }

  /** The ids of some cards. */
  function Ids(cards: seq<CardIdentifier>): set<int> {
    set c | c in cards :: c.id
  }

  /** The name of the last dump card with this id, or "" when none has it. */
  function NameOf(dump: seq<CardStandard>, id: int): (r: string)
    ensures r != "" ==> exists k :: 0 <= k < |dump| && dump[k].id == id && dump[k].name == r
    decreases |dump|
  {
    if dump == [] then ""
    else
      var k := |dump| - 1;
      if dump[k].id == id then dump[k].name else NameOf(dump[..k], id)
  }

  /** A card of the later dump overrides one of the earlier dump. */
  lemma NameOfAppend(a: seq<CardStandard>, b: seq<CardStandard>, id: int)
    ensures NameOf(a + b, id) ==
      if exists k :: 0 <= k < |b| && b[k].id == id then NameOf(b, id) else NameOf(a, id)
  {
    if exists k :: 0 <= k < |b| && b[k].id == id {
      NameOfLater(a, b, id);
    } else {
      NameOfEarlier(a, b, id);
    }
  }

  lemma {:induction false} NameOfLater(a: seq<CardStandard>, b: seq<CardStandard>, id: int)
    requires exists k :: 0 <= k < |b| && b[k].id == id
    ensures NameOf(a + b, id) == NameOf(b, id)
    decreases |b|
  {
    var k := |b| - 1;
    assert (a + b)[..|a + b| - 1] == a + b[..k];
    if b[k].id != id {
      var j :| 0 <= j < |b| && b[j].id == id;
      assert b[..k][j] == b[j];
      NameOfLater(a, b[..k], id);
    }
  }

  lemma {:induction false} NameOfEarlier(a: seq<CardStandard>, b: seq<CardStandard>, id: int)
    requires forall k :: 0 <= k < |b| ==> b[k].id != id
    ensures NameOf(a + b, id) == NameOf(a, id)
    decreases |b|
  {
    if b == [] {
      assert a + b == a;
    } else {
      var k := |b| - 1;
      assert (a + b)[..|a + b| - 1] == a + b[..k];
      NameOfEarlier(a, b[..k], id);
    }
  }

  /** The name a dump gives: the name of the last card with the id. */
  lemma {:induction false} NameOfLast(dump: seq<CardStandard>, k: nat)
    requires k < |dump| && forall j :: k < j < |dump| ==> dump[j].id != dump[k].id
    ensures NameOf(dump, dump[k].id) == dump[k].name
    decreases |dump|
  {
    var last := |dump| - 1;
    if k < last {
      assert forall j :: k < j < last ==> dump[..last][j] == dump[j];
      NameOfLast(dump[..last], k);
    }
  }

  /** One more dump card names its own id and leaves the others as they were. */
  lemma NameOfStep(dump: seq<CardStandard>, i: nat)
    requires i < |dump|
    ensures forall id :: NameOf(dump[..i + 1], id) == if dump[i].id == id then dump[i].name else NameOf(dump[..i], id)
  {
    var prefix := dump[..i + 1];
    assert prefix[..i] == dump[..i] && prefix[i] == dump[i] && |prefix| == i + 1;
    forall id ensures NameOf(prefix, id) == if dump[i].id == id then dump[i].name else NameOf(dump[..i], id) {
    }
  }

  /** `named_cards`: every id starts as "", and each dump card of season 1,
      then of season 2, whose id is wanted overwrites it with its name. */
  method NamedCards(cards: seq<CardIdentifier>, season1: seq<CardStandard>, season2: seq<CardStandard>)
    returns (names: map<int, string>)
    ensures names.Keys == Ids(cards)
    ensures forall id :: id in names ==> names[id] == NameOf(season1 + season2, id)
  {
    var dump := season1 + season2;
    names := map id | id in Ids(cards) :: "";
    var i := 0;
    while i < |dump|
      invariant 0 <= i <= |dump|
      invariant names.Keys == Ids(cards)
      invariant forall id :: id in names ==> names[id] == NameOf(dump[..i], id)
    {
      var standard := dump[i];
      NameOfStep(dump, i);
      if standard.id in names {
        names := names[standard.id := standard.name];
      }
      i := i + 1;
    }
    assert dump[..|dump|] == dump;
  }

  // ---- The CSV output of `main` ----

  /** The rarities shown when none are entered: the six real ones, not "". */
  const DefaultRarities: seq<string> := ["common", "uncommon", "rare", "ultra-rare", "epic", "legendary"]

  /** The rarities to show: the default six for an empty answer, otherwise
      the comma-separated answer, lowercased when `lower` (cards/cardsort.py
      lowercases; the older cardsort.py does not). */
  function SelectedRarities(answer: string, lower: bool): (r: seq<string>)
    ensures answer == "" ==> r == DefaultRarities
    ensures answer != "" ==> |r| == |Split(answer, ",")|
    ensures answer != "" ==> forall i :: 0 <= i < |r| ==> r[i] == if lower then Lower(Split(answer, ",")[i]) else Split(answer, ",")[i]
  {
    if answer == "" then DefaultRarities
    else
      var pieces := Split(answer, ",");
      seq(|pieces|, i requires 0 <= i < |pieces| => if lower then Lower(pieces[i]) else pieces[i])
  }

  /** Lowercasing twice is lowercasing once. */
  lemma LowerIdempotent(s: string)
    ensures Lower(Lower(s)) == Lower(s)
  {
    LowerAt(s);
    LowerAt(Lower(s));
  }

  /** A list of rarities entered with commas is read back as that list,
      lowercased in cards/cardsort.py. */
  lemma SelectedRaritiesJoin(rs: seq<string>, lower: bool)
    requires |rs| >= 1 && Join(rs, ",") != ""
    requires forall x <- rs :: ',' !in x
    ensures |SelectedRarities(Join(rs, ","), lower)| == |rs|
    ensures forall i :: 0 <= i < |rs| ==>
      SelectedRarities(Join(rs, ","), lower)[i] == if lower then Lower(rs[i]) else rs[i]
  {
    assert "," == [','];
    SplitJoin(rs, ',');
  }

  /** In cards/cardsort.py every selected rarity is lowercase, so an
      upper-case answer still selects its bin (the six default rarities are
      already lowercase); the bin of cards without a category is never shown
      by default. */
  lemma SelectedRaritiesLower(answer: string)
    ensures "" !in SelectedRarities("", true)
    ensures answer != "" ==> forall x <- SelectedRarities(answer, true) :: Lower(x) == x
  {
    if answer != "" {
      var pieces := Split(answer, ",");
      forall x <- SelectedRarities(answer, true) ensures Lower(x) == x {
        var i :| 0 <= i < |pieces| && x == Lower(pieces[i]);
        LowerIdempotent(pieces[i]);
      }
    }
  }

  const DeckPage := "https://www.nationstates.net/page=deck/"

  /** The link column of a card. */
  function CardLink(c: CardIdentifier): string {
    DeckPage + "card=" + IntToString(c.id) + "/season=" + c.season
  }

  /** `range(count)` copies of a row. */
  function Copies(row: string, count: int): (r: seq<string>)
    ensures |r| == if count > 0 then count else 0
    ensures forall i :: 0 <= i < |r| ==> r[i] == row
    decreases count
  {
    if count <= 0 then [] else [row] + Copies(row, count - 1)
  }

  /** The columns of cards/cardsort.py: a copies column only when collecting. */
  function Columns(collect: bool): (r: seq<string>)
    ensures |r| == if collect then 5 else 4
  {
    ["card", "cardName", "nation", "rarity"] + (if collect then ["copies"] else [])
  }

  /** A line of the file with `width` fields separated by ", ". */
  ghost predicate RowShaped(line: string, width: nat) {
    exists fields: seq<string> :: |fields| == width && line == Join(fields, ", ")
  }

  lemma JoinFour(a: string, b: string, c: string, d: string)
    ensures Join([a, b, c, d], ", ") == a + ", " + b + ", " + c + ", " + d
  {
    assert [a, b, c, d][1..] == [b, c, d] && [b, c, d][1..] == [c, d] && [c, d][1..] == [d];
    assert Join([c, d], ", ") == c + ", " + d;
    assert Join([b, c, d], ", ") == b + ", " + (c + ", " + d);
    assert Join([a, b, c, d], ", ") == a + ", " + (b + ", " + (c + ", " + d));
  }

  lemma JoinFive(a: string, b: string, c: string, d: string, e: string)
    ensures Join([a, b, c, d, e], ", ") == a + ", " + b + ", " + c + ", " + d + ", " + e
  {
    assert [a, b, c, d, e][1..] == [b, c, d, e];
    JoinFour(b, c, d, e);
    assert Join([a, b, c, d, e], ", ") == a + ", " + Join([b, c, d, e], ", ");
    assert a + ", " + (b + ", " + c + ", " + d + ", " + e) == a + ", " + b + ", " + c + ", " + d + ", " + e;
  }

  /** The row header of cards/cardsort.py: the column names separated by ", ". */
  function Header(collect: bool): (r: string)
    ensures r == Join(Columns(collect), ", ")
  {
    JoinFour("card", "cardName", "nation", "rarity");
    JoinFive("card", "cardName", "nation", "rarity", "copies");
    assert Columns(false) == ["card", "cardName", "nation", "rarity"];
    assert Columns(true) == ["card", "cardName", "nation", "rarity", "copies"];
    "card" + ", " + "cardName" + ", " + "nation" + ", " + "rarity" + (if collect then ", " + "copies" else "")
  }

  /** The rows of one card of one nation in cards/cardsort.py: one per copy,
      or one carrying the count when collecting. */
  function EntryRows(names: map<int, string>, collect: bool, rarity: string, nation: string, c: CardIdentifier, count: int): (r: seq<string>)
    ensures var name := if c.id in names then names[c.id] else "";
      var fields := [CardLink(c), name, nation, rarity];
      (collect ==> r == [Join(fields + [IntToString(count)], ", ")]) &&
      (!collect ==> |r| == (if count > 0 then count else 0) && forall i :: 0 <= i < |r| ==> r[i] == Join(fields, ", "))
    ensures forall i :: 0 <= i < |r| ==> RowShaped(r[i], |Columns(collect)|)
  {
    var name := if c.id in names then names[c.id] else "";
    var row := CardLink(c) + ", " + name + ", " + nation + ", " + rarity;
    JoinFour(CardLink(c), name, nation, rarity);
    JoinFive(CardLink(c), name, nation, rarity, IntToString(count));
    assert [CardLink(c), name, nation, rarity] + [IntToString(count)] == [CardLink(c), name, nation, rarity, IntToString(count)];
    if collect then [row + ", " + IntToString(count)] else Copies(row, count)
  }

  /** The columns of the older cardsort.py. */
  const LegacyColumns := ["card", "nation", "rarity", "copies"]

  /** The row of one card of one nation in the older cardsort.py: the card link,
      the nation, the rarity and the count, under the legacy columns. */
  function LegacyEntryRows(rarity: string, nation: string, c: CardIdentifier, count: int): (r: seq<string>)
    ensures r == [Join([CardLink(c), nation, rarity, IntToString(count)], ", ")]
    ensures forall i :: 0 <= i < |r| ==> RowShaped(r[i], |LegacyColumns|)
  {
    JoinFour(CardLink(c), nation, rarity, IntToString(count));
    [CardLink(c) + ", " + nation + ", " + rarity + ", " + IntToString(count)]
  }

  /** The header of the older cardsort.py: the legacy column names separated by ", ". */
  function LegacyHeader(): (r: string)
    ensures r == Join(LegacyColumns, ", ")
  {
    JoinFour("card", "nation", "rarity", "copies");
    "card, nation, rarity, copies"
  }

  /** The rows a card entry gives: rarity, nation, card and count in. */
  type RowMaker = (string, string, CardIdentifier, int) -> seq<string>

  /** The rows of one nation's bin, card by card. */
  function CountsRows(counts: Counts, rarity: string, nation: string, entry: RowMaker): seq<string>
    decreases |counts|
  {
    if counts == [] then []
    else entry(rarity, nation, counts[0].0, counts[0].1) + CountsRows(counts[1..], rarity, nation, entry)
  }

  /** The rows of one rarity, nation by nation. */
  function BinsRows(bins: Dict<Counts>, rarity: string, entry: RowMaker): seq<string>
    decreases |bins|
  {
    if bins == [] then []
    else CountsRows(bins[0].1, rarity, bins[0].0, entry) + BinsRows(bins[1..], rarity, entry)
  }

  /** The rows below the header: the rarities in `data` order, only those selected. */
  function DataRows(data: Bins, rarities: seq<string>, entry: RowMaker): seq<string>
    decreases |data|
  {
    if data == [] then []
    else (if data[0].0 in rarities then BinsRows(data[0].1, data[0].0, entry) else []) +
         DataRows(data[1..], rarities, entry)
  }

  /** Every row a card entry gives has `width` fields. */
  ghost predicate EntryShaped(entry: RowMaker, width: nat) {
    forall r, n, c, k, i :: 0 <= i < |entry(r, n, c, k)| ==> RowShaped(entry(r, n, c, k)[i], width)
  }

  /** The whole file of cards/cardsort.py: the header, then one line per row of
      the selected rarities, each with a field under every column; only the
      header when no rarity of the data is selected. */
  function CsvLines(data: Bins, names: map<int, string>, rarities: seq<string>, collect: bool): (r: seq<string>)
    ensures |r| >= 1 && r[0] == Join(Columns(collect), ", ")
    ensures forall i :: 1 <= i < |r| ==> RowShaped(r[i], |Columns(collect)|)
    ensures (forall i :: 0 <= i < |data| ==> data[i].0 !in rarities) ==> r == [Join(Columns(collect), ", ")]
  {
    var entry: RowMaker := (r, n, c, k) => EntryRows(names, collect, r, n, c, k);
    DataRowsShaped(data, rarities, entry, |Columns(collect)|);
    assert (forall i :: 0 <= i < |data| ==> data[i].0 !in rarities) ==> DataRows(data, rarities, entry) == [] by {
      if forall i :: 0 <= i < |data| ==> data[i].0 !in rarities {
        DataRowsUnselected(data, rarities, entry);
      }
    }
    [Header(collect)] + DataRows(data, rarities, entry)
  }

  /** The whole file of the older cardsort.py: the header, then one line per
      card entry of the selected rarities, each with a field under every
      legacy column. */
  function LegacyCsvLines(data: Bins, rarities: seq<string>): (r: seq<string>)
    ensures |r| >= 1 && r[0] == Join(LegacyColumns, ", ")
    ensures forall i :: 1 <= i < |r| ==> RowShaped(r[i], |LegacyColumns|)
    ensures (forall i :: 0 <= i < |data| ==> data[i].0 !in rarities) ==> r == [Join(LegacyColumns, ", ")]
  {
    DataRowsShaped(data, rarities, LegacyEntryRows, |LegacyColumns|);
    assert (forall i :: 0 <= i < |data| ==> data[i].0 !in rarities) ==> DataRows(data, rarities, LegacyEntryRows) == [] by {
      if forall i :: 0 <= i < |data| ==> data[i].0 !in rarities {
        DataRowsUnselected(data, rarities, LegacyEntryRows);
      }
    }
    [LegacyHeader()] + DataRows(data, rarities, LegacyEntryRows)
  }

  lemma EntryRowShaped(entry: RowMaker, width: nat, r: string, n: string, c: CardIdentifier, k: int, i: int)
    requires EntryShaped(entry, width) && 0 <= i < |entry(r, n, c, k)|
    ensures RowShaped(entry(r, n, c, k)[i], width)
  {
  }

  lemma {:induction false} CountsRowsShaped(counts: Counts, rarity: string, nation: string, entry: RowMaker, width: nat)
    requires EntryShaped(entry, width)
    ensures forall i :: 0 <= i < |CountsRows(counts, rarity, nation, entry)| ==>
      RowShaped(CountsRows(counts, rarity, nation, entry)[i], width)
    decreases |counts|
  {
    if counts != [] {
      CountsRowsShaped(counts[1..], rarity, nation, entry, width);
      var head := entry(rarity, nation, counts[0].0, counts[0].1);
      var rows := CountsRows(counts, rarity, nation, entry);
      forall i | 0 <= i < |rows| ensures RowShaped(rows[i], width) {
        if i < |head| {
          EntryRowShaped(entry, width, rarity, nation, counts[0].0, counts[0].1, i);
          assert rows[i] == head[i];
        } else {
          assert rows[i] == CountsRows(counts[1..], rarity, nation, entry)[i - |head|];
        }
      }
    }
  }

  lemma {:induction false} BinsRowsShaped(bins: Dict<Counts>, rarity: string, entry: RowMaker, width: nat)
    requires EntryShaped(entry, width)
    ensures forall i :: 0 <= i < |BinsRows(bins, rarity, entry)| ==> RowShaped(BinsRows(bins, rarity, entry)[i], width)
    decreases |bins|
  {
    if bins != [] {
      CountsRowsShaped(bins[0].1, rarity, bins[0].0, entry, width);
      BinsRowsShaped(bins[1..], rarity, entry, width);
      var head := CountsRows(bins[0].1, rarity, bins[0].0, entry);
      var rows := BinsRows(bins, rarity, entry);
      forall i | 0 <= i < |rows| ensures RowShaped(rows[i], width) {
        if i < |head| {
          assert rows[i] == head[i];
        } else {
          assert rows[i] == BinsRows(bins[1..], rarity, entry)[i - |head|];
        }
      }
    }
  }

  /** Every line below the header has as many fields as every card entry row. */
  lemma {:induction false} DataRowsShaped(data: Bins, rarities: seq<string>, entry: RowMaker, width: nat)
    requires EntryShaped(entry, width)
    ensures forall i :: 0 <= i < |DataRows(data, rarities, entry)| ==> RowShaped(DataRows(data, rarities, entry)[i], width)
    decreases |data|
  {
    if data != [] {
      DataRowsShaped(data[1..], rarities, entry, width);
      var head := if data[0].0 in rarities then BinsRows(data[0].1, data[0].0, entry) else [];
      if data[0].0 in rarities {
        BinsRowsShaped(data[0].1, data[0].0, entry, width);
      }
      var rows := DataRows(data, rarities, entry);
      forall i | 0 <= i < |rows| ensures RowShaped(rows[i], width) {
        if i < |head| {
          assert rows[i] == head[i];
        } else {
          assert rows[i] == DataRows(data[1..], rarities, entry)[i - |head|];
        }
      }
    }
  }

  /** The rarities not selected contribute no row. */
  lemma {:induction false} DataRowsUnselected(data: Bins, rarities: seq<string>, entry: RowMaker)
    requires forall i :: 0 <= i < |data| ==> data[i].0 !in rarities
    ensures DataRows(data, rarities, entry) == []
    decreases |data|
  {
    if data != [] {
      assert forall i :: 0 <= i < |data[1..]| ==> data[1..][i] == data[i + 1];
      DataRowsUnselected(data[1..], rarities, entry);
    }
  }

  /** The rows of two parts of the data are the rows of each, in order. */
  lemma {:induction false} DataRowsAppend(a: Bins, b: Bins, rarities: seq<string>, entry: RowMaker)
    ensures DataRows(a + b, rarities, entry) == DataRows(a, rarities, entry) + DataRows(b, rarities, entry)
    decreases |a|
  {
    if a == [] {
      assert a + b == b;
    } else {
      assert (a + b)[1..] == a[1..] + b;
      DataRowsAppend(a[1..], b, rarities, entry);
    }
  }

  /** The copies of a card and the sum of a bin's counts. */
  function Total(counts: Counts): (r: nat)
    decreases |counts|
  {
    if counts == [] then 0 else (if counts[0].1 > 0 then counts[0].1 else 0) + Total(counts[1..])
  }

  /** Without collecting, a nation's bin gives one row per copy; collecting,
      one row per distinct card. */
  lemma {:induction false} CountsRowsLength(counts: Counts, names: map<int, string>, collect: bool, rarity: string, nation: string)
    ensures |CountsRows(counts, rarity, nation, (r, n, c, k) => EntryRows(names, collect, r, n, c, k))| ==
      if collect then |counts| else Total(counts)
    decreases |counts|
  {
    if counts != [] {
      CountsRowsLength(counts[1..], names, collect, rarity, nation);
    }
  }
}

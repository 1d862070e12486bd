/**
 * Endorsement cross-referencing (wa/cross.py and its older copy cross.py).
 * The API answers are parameters: `shard(n)` is the text of nation n's
 * "endorsements" shard, `happenings(since)` the texts of the endorsement
 * happenings from instant `since` on, and `endorsementsOf(n)` the endorsement
 * list of n.  An ordered dictionary is a sequence of (key, value) pairs with
 * distinct keys.
 */
module Cross {
  import opened Outcomes
  import opened Strings

  // ---- uncrossed ----

  /** A happening text that makes the outgoing filter raise IndexError: fewer than two
      '@@'-pieces, or an endorser piece equal to `nation` with no fourth piece. */
  predicate BadEndo(text: string, nation: string) {
    var p := Split(text, "@@");
    |p| < 2 || (p[1] == nation && |p| < 4)
  }

  /** The text records `nation` endorsing `other`: piece 1 is the endorser, piece 3 the endorsee. */
  predicate OutgoingTo(text: string, nation: string, other: string) {
    var p := Split(text, "@@");
    |p| >= 4 && p[1] == nation && p[3] == other
  }

  /** `set(text.split("@@")[3] for text in endos if text.split("@@")[1] == nation)`. */
  function Outgoing(endos: seq<string>, nation: string): (r: Result<set<string>>)
    ensures r.Err? <==> exists i :: 0 <= i < |endos| && BadEndo(endos[i], nation)
    ensures r.Err? ==> r.error == IndexError
    ensures r.Ok? ==> forall o :: o in r.value <==> exists i :: 0 <= i < |endos| && OutgoingTo(endos[i], nation, o)
    decreases |endos|
  {
    if endos == [] then Ok({})
    else
      var pieces := Split(endos[0], "@@");
      var rest := Outgoing(endos[1..], nation);
      assert forall i :: 1 <= i < |endos| ==> endos[i] == endos[1..][i - 1];
      if |pieces| < 2 then Err(IndexError)
      else if pieces[1] == nation then
        if |pieces| < 4 then Err(IndexError)
        else if rest.Err? then rest
        else Ok({pieces[3]} + rest.value)
      else rest
  }

  /** `uncrossed` of wa/cross.py: the endorsers of `lead` minus the nations that `nation`
      endorsed in the last `duration` seconds before `now`.  An endorser of the lead is
      kept exactly when no recent happening shows `nation` endorsing it; a malformed
      happening raises IndexError. */
  function Uncrossed(shard: string -> string, happenings: int -> seq<string>,
                     nation: string, lead: string, now: int, duration: int): (r: Result<set<string>>)
    ensures var endos := happenings(now - duration);
      (r.Err? <==> exists i :: 0 <= i < |endos| && BadEndo(endos[i], nation)) &&
      (r.Ok? ==> forall o :: o in r.value <==>
        o in Split(shard(lead), ",") && !exists i :: 0 <= i < |endos| && OutgoingTo(endos[i], nation, o))
  {
    var nations := set n | n in Split(shard(lead), ",");
    var outgoing :- Outgoing(happenings(now - duration), nation);
    Ok(nations - outgoing)
  }

  /** `uncrossed` of cross.py: the same, but the endorser list read is that of
      `nation` itself; `lead` is never used. */
  function UncrossedLegacy(shard: string -> string, happenings: int -> seq<string>,
                           nation: string, lead: string, now: int, duration: int): (r: Result<set<string>>)
    ensures var endos := happenings(now - duration);
      (r.Err? <==> exists i :: 0 <= i < |endos| && BadEndo(endos[i], nation)) &&
      (r.Ok? ==> forall o :: o in r.value <==>
        o in Split(shard(nation), ",") && !exists i :: 0 <= i < |endos| && OutgoingTo(endos[i], nation, o))
  {
    Uncrossed(shard, happenings, nation, nation, now, duration)
  }

  /** In cross.py the lead makes no difference. */
  lemma UncrossedLegacyIgnoresLead(shard: string -> string, happenings: int -> seq<string>,
                                   nation: string, lead1: string, lead2: string, now: int, duration: int)
    ensures UncrossedLegacy(shard, happenings, nation, lead1, now, duration) ==
      UncrossedLegacy(shard, happenings, nation, lead2, now, duration)
  {
  }

  /** A text without "@@" at all makes the filtering raise IndexError. */
  lemma NoMarkerRaises(text: string, nation: string)
    requires !Contains(text, "@@")
    ensures BadEndo(text, nation)
  {
  }

  // ---- endorsements and missing crosses ----

  /** `endorsements(requester, lead)`: the endorsement list of the lead and of each of its endorsers. */
  function Endorsements(lead: string, endorsementsOf: string -> seq<string>): (r: map<string, seq<string>>)
    ensures lead in r
    ensures forall n :: n in r <==> n == lead || n in endorsementsOf(lead)
    ensures forall n :: n in r ==> r[n] == endorsementsOf(n)
  {
    map n | n in (set e | e in endorsementsOf(lead)) + {lead} :: endorsementsOf(n)
  }

  /** The keys of an ordered dictionary. */
  function Keys<V>(d: seq<(string, V)>): seq<string> {
    seq(|d|, i requires 0 <= i < |d| => d[i].0)
  }

  /** The keys of `data`, in order, whose endorser set lacks `nation`, except `nation` itself. */
  function Unendorsing(data: seq<(string, set<string>)>, nation: string): (r: seq<string>)
    ensures forall o :: o in r <==> exists i :: 0 <= i < |data| && data[i].0 == o && o != nation && nation !in data[i].1
    decreases |data|
  {
    if data == [] then []
    else
      var rest := Unendorsing(data[1..], nation);
      assert forall i :: 1 <= i < |data| ==> data[i] == data[1..][i - 1];
      if data[0].0 != nation && nation !in data[0].1 then [data[0].0] + rest else rest
  }

  /** One entry contributes its key exactly when it is another nation whose
      endorsers lack `nation`. */
  lemma UnendorsingOne(e: (string, set<string>), nation: string)
    ensures Unendorsing([e], nation) == if e.0 != nation && nation !in e.1 then [e.0] else []
  {
    assert [e][1..] == [];
  }

  /** The comprehension keeps the order of `data.items()`: the keys of a
      concatenation are those of the first part, then those of the second. */
  lemma {:induction false} UnendorsingAppend(a: seq<(string, set<string>)>, b: seq<(string, set<string>)>, nation: string)
    ensures Unendorsing(a + b, nation) == Unendorsing(a, nation) + Unendorsing(b, nation)
    decreases |a|
  {
    if a == [] {
      assert a + b == b;
    } else {
      assert (a + b)[1..] == a[1..] + b;
      UnendorsingAppend(a[1..], b, nation);
    }
  }

  /** The `data` comprehension: each key with the set of its endorsers. */
  function SetsOf(reference: seq<(string, seq<string>)>): (data: seq<(string, set<string>)>)
    ensures |data| == |reference|
    ensures forall i :: 0 <= i < |reference| ==>
      data[i].0 == reference[i].0 && (forall e :: e in data[i].1 <==> e in reference[i].1)
  {
    seq(|reference|, i requires 0 <= i < |reference| => (reference[i].0, set e | e in reference[i].1))
  }

  /** `missing_crosses`: for each nation, in key order, the other nations that it has not endorsed. */
  function MissingCrosses(reference: seq<(string, seq<string>)>): (r: seq<(string, seq<string>)>)
    ensures Keys(r) == Keys(reference)
  {
    var data := SetsOf(reference);
    seq(|reference|, i requires 0 <= i < |reference| => (reference[i].0, Unendorsing(data, reference[i].0)))
  }

  /** Each nation's list holds exactly the other keys whose endorsement list lacks
      the nation, and never the nation itself; it is the `Unendorsing` list of
      the endorser sets, so it keeps the key order (`UnendorsingAppend`). */
  lemma MissingCrossesSpec(reference: seq<(string, seq<string>)>, k: nat)
    requires k < |reference|
    ensures var nation := reference[k].0;
      var missing := MissingCrosses(reference)[k].1;
      nation !in missing &&
      missing == Unendorsing(SetsOf(reference), nation) &&
      forall o :: o in missing <==>
        exists i :: 0 <= i < |reference| && reference[i].0 == o && o != nation && nation !in reference[i].1
  {
    var data := SetsOf(reference);
    var nation := reference[k].0;
    assert MissingCrosses(reference)[k].1 == Unendorsing(data, nation);
    assert forall i :: 0 <= i < |data| ==> data[i].0 == reference[i].0 && (nation in data[i].1 <==> nation in reference[i].1);
  }

  /** Repeated endorsers, or endorsers in another order, do not change the result. */
  lemma MissingCrossesUsesSets(a: seq<(string, seq<string>)>, b: seq<(string, seq<string>)>)
    requires |a| == |b|
    requires forall i :: 0 <= i < |a| ==> a[i].0 == b[i].0 && (set e | e in a[i].1) == (set e | e in b[i].1)
    ensures MissingCrosses(a) == MissingCrosses(b)
  {
    assert SetsOf(a) == SetsOf(b);
  }
}

/**
 * Roster checking (roster/rosterupdate.py).  A roster maps each member nation
 * to the WA nation it was last seen with; the "known" data maps each member to
 * its puppet list.  The WA status of a nation comes from the API, here the
 * parameter `wa`: the text of the nation's WA status shard, or the error the
 * request raised.  Dictionaries are the insertion-ordered `Dicts.Dict`; the
 * script wraps keys and values in `nsapi.Name`, so keys compare `ByName`.
 */
module RosterUpdate {
  import opened Outcomes
  import opened Strings
  import opened Core
  import opened Dicts
  import opened Sorting

  /** `is_wa`: the status text starts with "WA"; a nation the API does not know
      (ResourceError) is not in the WA; any other error propagates. */
  function IsWa(wa: string -> Result<string>, nation: string): (r: Result<bool>)
    ensures r.Err? ==> wa(nation).Err? && r.error == wa(nation).error && r.error != ResourceError
    ensures r == Ok(true) <==> wa(nation).Ok? && StartsWith(wa(nation).value, "WA")
  {
    match wa(nation)
    case Ok(text) => Ok(StartsWith(text, "WA"))
    case Err(e) => if e == ResourceError then Ok(false) else Err(e)
  }

  /** The outcome of `find_wa`: the first WA nation, asking in order and stopping there. */
  function FirstWa(wa: string -> Result<string>, nations: seq<string>): Result<Option<string>>
    decreases |nations|
  {
    if nations == [] then Ok(None)
    else
      match IsWa(wa, nations[0])
      case Err(e) => Err(e)
      case Ok(isWa) => if isWa then Ok(Some(nations[0])) else FirstWa(wa, nations[1..])
  }

  /** `find_wa`: a search loop that returns at the first WA nation. */
  method FindWa(wa: string -> Result<string>, nations: seq<string>) returns (r: Result<Option<string>>)
    ensures r == FirstWa(wa, nations)
  {
    var i := 0;
    while i < |nations|
      invariant 0 <= i <= |nations|
      invariant FirstWa(wa, nations) == FirstWa(wa, nations[i..])
    {
      assert nations[i..][1..] == nations[i + 1..];
      var isWa := IsWa(wa, nations[i]);
      if isWa.Err? {
        return Err(isWa.error);
      }
      if isWa.value {
        return Ok(Some(nations[i]));
      }
      i := i + 1;
    }
    return Ok(None);
  }

  /** `find_wa` answers the first nation that is in the WA, after asking only
      about the nations before it, which are not; None when no nation is; an
      error only from a nation asked about. */
  lemma {:induction false} FirstWaSpec(wa: string -> Result<string>, nations: seq<string>)
    ensures var r := FirstWa(wa, nations);
      (r.Ok? && r.value.Some? ==> exists i :: (0 <= i < |nations| && nations[i] == r.value.value &&
         IsWa(wa, nations[i]) == Ok(true) && forall j :: 0 <= j < i ==> IsWa(wa, nations[j]) == Ok(false))) &&
      (r == Ok(None) <==> forall j :: 0 <= j < |nations| ==> IsWa(wa, nations[j]) == Ok(false)) &&
      (r.Err? ==> exists i :: (0 <= i < |nations| && IsWa(wa, nations[i]) == Err(r.error) &&
         forall j :: 0 <= j < i ==> IsWa(wa, nations[j]) == Ok(false)))
    decreases |nations|
  {
    if nations != [] {
      var rest := nations[1..];
      FirstWaSpec(wa, rest);
      assert forall j :: 1 <= j < |nations| ==> nations[j] == rest[j - 1];
      var r := FirstWa(wa, nations);
      if IsWa(wa, nations[0]) == Ok(false) {
        if r.Ok? && r.value.Some? {
          var i :| 0 <= i < |rest| && rest[i] == r.value.value && IsWa(wa, rest[i]) == Ok(true) &&
            forall j :: 0 <= j < i ==> IsWa(wa, rest[j]) == Ok(false);
          assert nations[i + 1] == r.value.value;
        }
        if r.Err? {
          var i :| 0 <= i < |rest| && IsWa(wa, rest[i]) == Err(r.error) &&
            forall j :: 0 <= j < i ==> IsWa(wa, rest[j]) == Ok(false);
          assert IsWa(wa, nations[i + 1]) == Err(r.error);
        }
        if forall j :: 0 <= j < |rest| ==> IsWa(wa, rest[j]) == Ok(false) {
          assert forall j :: 0 <= j < |nations| ==> IsWa(wa, nations[j]) == Ok(false);
        }
      }
    }
  }

  /** `normalize` and `normalize_known`: the same entries with `Name` keys (and
      values), built by a dict comprehension, so keys that differ only in case or
      in space against underscore fall together, the last value winning. */
  function Normalize<V>(mapping: Dict<V>): (r: Dict<V>)
    ensures Unique(ByName, r)
  {
    FromPairs(ByName, mapping)
  }

  /** A normalized mapping answers a name exactly when some original key is the
      same nation, with the value of the last such key. */
  lemma NormalizeSpec<V>(mapping: Dict<V>, q: string)
    ensures In(ByName, Normalize(mapping), q) <==> exists i :: 0 <= i < |mapping| && SameNation(mapping[i].0, q)
    ensures forall i :: LastAssignment(ByName, mapping, q, i) ==> Get(ByName, Normalize(mapping), q) == Ok(mapping[i].1)
  {
    FromPairsIn(ByName, mapping, q);
    forall i | LastAssignment(ByName, mapping, q, i) ensures Get(ByName, Normalize(mapping), q) == Ok(mapping[i].1) {
      FromPairsLast(ByName, mapping, q, i);
    }
    if Normal(q) in NormKeys(ByName, mapping) {
      var i :| 0 <= i < |mapping| && NormKeys(ByName, mapping)[i] == Normal(q);
      assert SameNation(mapping[i].0, q);
    }
  }

  /** One entry of `wa_deltas`: the old WA, and the current one found among the
      member's known puppets (None when the member is not in the known data). */
  function Delta(wa: string -> Result<string>, known: Dict<seq<string>>, nation: string, previous: string): Result<(string, Option<string>)> {
    match Get(ByName, known, nation)
    case Err(_) => Ok((previous, None))
    case Ok(puppets) =>
      var current :- FirstWa(wa, puppets);
      Ok((previous, current))
  }

  /** `wa_deltas`: an (old, new) pair for every member of the roster, in roster order. */
  function WaDeltas(wa: string -> Result<string>, roster: Dict<string>, known: Dict<seq<string>>): (r: Result<Dict<(string, Option<string>)>>)
    ensures r.Ok? ==> Keys(r.value) == Keys(roster)
    ensures r.Ok? ==> forall i :: 0 <= i < |roster| ==> Delta(wa, known, roster[i].0, roster[i].1) == Ok(r.value[i].1)
    ensures r.Err? ==> exists i :: 0 <= i < |roster| && Delta(wa, known, roster[i].0, roster[i].1) == Err(r.error)
    decreases |roster|, 1
  {
    if roster == [] then Ok([])
    else
      var d :- Delta(wa, known, roster[0].0, roster[0].1);
      var rest :- WaDeltasTail(wa, roster, known);
      WaDeltasCons(wa, roster, known, d, rest);
      Ok([(roster[0].0, d)] + rest)
  }

  /** The deltas of all members but the first; a failure there is a failure
      of one of the members. */
  function WaDeltasTail(wa: string -> Result<string>, roster: Dict<string>, known: Dict<seq<string>>): (r: Result<Dict<(string, Option<string>)>>)
    requires roster != []
    ensures r.Ok? ==> Keys(r.value) == Keys(roster[1..])
    ensures r.Ok? ==> forall i :: 1 <= i < |roster| ==> Delta(wa, known, roster[i].0, roster[i].1) == Ok(r.value[i - 1].1)
    ensures r.Err? ==> exists i :: 0 <= i < |roster| && Delta(wa, known, roster[i].0, roster[i].1) == Err(r.error)
    decreases |roster|, 0
  {
    var r := WaDeltas(wa, roster[1..], known);
    if r.Err? then
      FailureInTail(wa, roster, known, r.error);
      r
    else
      assert forall i :: 1 <= i < |roster| ==> roster[i] == roster[1..][i - 1];
      r
  }

  /** A member after the first that fails is a member of the roster that fails. */
  lemma FailureInTail(wa: string -> Result<string>, roster: Dict<string>, known: Dict<seq<string>>, e: Error)
    requires roster != []
    requires exists i :: 0 <= i < |roster[1..]| && Delta(wa, known, roster[1..][i].0, roster[1..][i].1) == Err(e)
    ensures exists i :: 0 <= i < |roster| && Delta(wa, known, roster[i].0, roster[i].1) == Err(e)
  {
    var i :| 0 <= i < |roster[1..]| && Delta(wa, known, roster[1..][i].0, roster[1..][i].1) == Err(e);
    assert roster[1..][i] == roster[i + 1];
  }

  /** The first member's delta in front of the others' gives the deltas of
      the whole roster. */
  lemma WaDeltasCons(wa: string -> Result<string>, roster: Dict<string>, known: Dict<seq<string>>,
                     d: (string, Option<string>), rest: Dict<(string, Option<string>)>)
    requires roster != [] && Delta(wa, known, roster[0].0, roster[0].1) == Ok(d)
    requires Keys(rest) == Keys(roster[1..])
    requires forall i :: 1 <= i < |roster| ==> Delta(wa, known, roster[i].0, roster[i].1) == Ok(rest[i - 1].1)
    ensures Keys([(roster[0].0, d)] + rest) == Keys(roster)
    ensures forall i :: 0 <= i < |roster| ==> Delta(wa, known, roster[i].0, roster[i].1) == Ok(([(roster[0].0, d)] + rest)[i].1)
  {
    var r := [(roster[0].0, d)] + rest;
    forall i | 0 <= i < |roster| ensures r[i].0 == roster[i].0 && Delta(wa, known, roster[i].0, roster[i].1) == Ok(r[i].1) {
      if i > 0 {
        assert r[i] == rest[i - 1];
        assert Keys(rest)[i - 1] == Keys(roster[1..])[i - 1];
      }
    }
    assert Keys(r) == Keys(roster);
  }

  /** A member missing from the known data keeps its old WA and gets no new one;
      a member present gets the first WA nation among its puppets. */
  lemma WaDeltasSpec(wa: string -> Result<string>, roster: Dict<string>, known: Dict<seq<string>>, i: nat)
    requires i < |roster| && WaDeltas(wa, roster, known).Ok?
    ensures var d := WaDeltas(wa, roster, known).value[i];
      d.0 == roster[i].0 && d.1.0 == roster[i].1 &&
      (!In(ByName, known, roster[i].0) ==> d.1.1 == None) &&
      (In(ByName, known, roster[i].0) ==> Ok(d.1.1) == FirstWa(wa, Get(ByName, known, roster[i].0).value))
  {
    var d := WaDeltas(wa, roster, known).value[i];
    assert Keys(WaDeltas(wa, roster, known).value)[i] == Keys(roster)[i];
  }

  /** `wa_changes` as written: `old != new` is `str.__ne__`, because `Name`
      overrides `__eq__` but not `__ne__`, so the comparison is on the raw text. */
  function WaChangesAsWritten(deltas: Dict<(string, Option<string>)>): (r: Dict<Option<string>>)
    ensures forall e :: e in r <==> exists d :: d in deltas && e == (d.0, d.1.1) && (d.1.1.None? || d.1.0 != d.1.1.value)
    decreases |deltas|
  {
    if deltas == [] then []
    else
      var d := deltas[0];
      var rest := WaChangesAsWritten(deltas[1..]);
      assert forall x :: x in deltas <==> x == d || x in deltas[1..];
      if d.1.1.None? || d.1.0 != d.1.1.value then [(d.0, d.1.1)] + rest else rest
  }

  /** `wa_changes` as intended: a member is kept when it has no WA now, or when
      its WA is a different nation, compared as `Name`s. */
  function WaChanges(deltas: Dict<(string, Option<string>)>): (r: Dict<Option<string>>)
    ensures forall e :: e in r <==> exists d :: d in deltas && e == (d.0, d.1.1) && (d.1.1.None? || !SameNation(d.1.0, d.1.1.value))
    decreases |deltas|
  {
    if deltas == [] then []
    else
      var d := deltas[0];
      var rest := WaChanges(deltas[1..]);
      assert forall x :: x in deltas <==> x == d || x in deltas[1..];
      if d.1.1.None? || !SameNation(d.1.0, d.1.1.value) then [(d.0, d.1.1)] + rest else rest
  }

  /** A member whose old WA is written "A B" in the roster and "a_b" in the
      known data has not changed WA, yet the script reports it as changed. */
  lemma WaChangesSpellingCounterexample()
    ensures var deltas := [("M", ("A B", Some("a_b")))];
      WaChangesAsWritten(deltas) == [("M", Some("a_b"))] && WaChanges(deltas) == []
  {
    var deltas := [("M", ("A B", Some("a_b")))];
    SpellingSamples();
    assert SameNation("A B", "a_b");
  }

  /** How the two spellings of the counterexample are read. */
  lemma SpellingSamples()
    ensures Lower("A B") == "a b" && Lower("a_b") == "a_b"
    ensures Split("a b", " ") == ["a", "b"] && Split("a_b", " ") == ["a_b"]
  {
    LowerSamples();
    SplitSamples();
  }

  lemma LowerSamples()
    ensures Lower("A B") == "a b" && Lower("a_b") == "a_b"
  {
    assert Lower("A B") == "a b";
    assert Lower("a_b") == "a_b";
  }

  lemma SplitSamples()
    ensures Split("a b", " ") == ["a", "b"] && Split("a_b", " ") == ["a_b"]
  {
    assert IndexOf("a b", " ") == Some(1) by {
      assert "a b"[0..1] == "a" && "a b"[1..2] == " ";
      assert !OccursAt("a b", " ", 0) && OccursAt("a b", " ", 1);
    }
    assert IndexOf("b", " ") == None by {
      assert "b"[0..1] == "b";
      assert !OccursAt("b", " ", 0);
    }
    assert "a b"[..1] == "a" && "a b"[2..] == "b";
    assert IndexOf("a_b", " ") == None by {
      assert "a_b"[0..1] == "a" && "a_b"[1..2] == "_" && "a_b"[2..3] == "b";
      assert !OccursAt("a_b", " ", 0) && !OccursAt("a_b", " ", 1) && !OccursAt("a_b", " ", 2);
    }
  }

  /** The items that differ from `x`, in order: `filter(lambda item: item != x, items)`. */
  function Without(items: seq<string>, x: string): seq<string>
    decreases |items|
  {
    if items == [] then []
    else (if items[0] != x then [items[0]] else []) + Without(items[1..], x)
  }

  /** `bubble`: `top` first, then the items that are not `top`, in order.  The
      filter uses `!=` too, so it drops only the items spelled exactly as `top`. */
  function Bubble(top: string, items: seq<string>): (r: seq<string>)
    ensures |r| >= 1 && r[0] == top && r[1..] == Without(items, top)
  {
    [top] + Without(items, top)
  }

  lemma {:induction false} WithoutCounts(items: seq<string>, x: string)
    ensures multiset(Without(items, x))[x] == 0
    ensures forall y :: y != x ==> multiset(Without(items, x))[y] == multiset(items)[y]
    decreases |items|
  {
    if items != [] {
      WithoutCounts(items[1..], x);
      assert items == [items[0]] + items[1..];
    }
  }

  /** After bubbling, `top` occurs exactly once and every other item as often as before. */
  lemma BubbleSpec(top: string, items: seq<string>)
    ensures multiset(Bubble(top, items))[top] == 1
    ensures forall x :: x != top ==> multiset(Bubble(top, items))[x] == multiset(items)[x]
  {
    WithoutCounts(items, top);
  }

  /** `extract_new`: the members that have a WA now, with that WA. */
  function ExtractNew(deltas: Dict<(string, Option<string>)>): (r: Dict<string>)
    ensures forall e :: e in r <==> (e.0, e.1) in (set d | d in deltas && d.1.1.Some? :: (d.0, d.1.1.value))
    ensures |r| <= |deltas|
    decreases |deltas|
  {
    if deltas == [] then []
    else
      var rest := ExtractNew(deltas[1..]);
      assert forall x :: x in deltas <==> x == deltas[0] || x in deltas[1..];
      if deltas[0].1.1.Some? then [(deltas[0].0, deltas[0].1.1.value)] + rest else rest
  }

  /** `reorganize`: every member keeps its entry; a member with a new WA has that
      nation bubbled to the front of its puppet list. */
  function Reorganize(known: Dict<seq<string>>, newWa: Dict<string>): (r: Dict<seq<string>>)
    ensures Keys(r) == Keys(known)
    ensures forall i :: 0 <= i < |known| ==>
      r[i].1 == (if In(ByName, newWa, known[i].0) then Bubble(Get(ByName, newWa, known[i].0).value, known[i].1) else known[i].1)
  {
    seq(|known|, i requires 0 <= i < |known| =>
      (known[i].0, if In(ByName, newWa, known[i].0) then Bubble(Get(ByName, newWa, known[i].0).value, known[i].1) else known[i].1))
  }

  /** A member without a new WA keeps its puppet list unchanged; one with a new WA
      gets a list that starts with it. */
  lemma ReorganizeSpec(known: Dict<seq<string>>, newWa: Dict<string>, i: nat)
    requires i < |known|
    ensures !In(ByName, newWa, known[i].0) ==> Reorganize(known, newWa)[i] == known[i]
    ensures In(ByName, newWa, known[i].0) ==>
      Reorganize(known, newWa)[i].1[0] == Get(ByName, newWa, known[i].0).value &&
      multiset(Reorganize(known, newWa)[i].1)[Get(ByName, newWa, known[i].0).value] == 1
  {
    if In(ByName, newWa, known[i].0) {
      BubbleSpec(Get(ByName, newWa, known[i].0).value, known[i].1);
    }
  }

  /** Python truthiness of an optional string: present and non-empty. */
  predicate Truthy(s: Option<string>) {
    s.Some? && s.value != ""
  }

  /** One printed line: "<nation><sep><wa>", or the fallback text when the WA is falsy. */
  function OutputLine(entry: (string, Option<string>), sep: string, fallback: string): string {
    entry.0 + sep + (if Truthy(entry.1) then entry.1.value else fallback)
  }

  /** The lines of a `print_output`, one per entry, in nation order. */
  function SortedLines(output: Dict<Option<string>>, sep: string, fallback: string): (lines: seq<string>)
    ensures |lines| == |output|
  {
    var sorted := SortByKey(output);
    assert |sorted| == |multiset(sorted)| == |multiset(output)| == |output|;
    seq(|sorted|, i requires 0 <= i < |sorted| => OutputLine(sorted[i], sep, fallback))
  }

  /** `print_output` prints one line per entry, the entries sorted by nation, with
      "Unknown WA" for an entry without a WA. */
  function PrintOutput(output: Dict<Option<string>>): (lines: seq<string>)
    ensures |lines| == |output|
    ensures exists sorted :: (SortedByKey(sorted) && multiset(sorted) == multiset(output) &&
      |sorted| == |lines| &&
      forall i :: 0 <= i < |sorted| ==> lines[i] == OutputLine(sorted[i], " - ", "Unknown WA"))
  {
    SortedLinesSpec(output, " - ", "Unknown WA");
    SortedLines(output, " - ", "Unknown WA")
  }

  /** The printed lines are those of a sorted rearrangement of the entries. */
  lemma SortedLinesSpec(output: Dict<Option<string>>, sep: string, fallback: string)
    ensures exists sorted :: (SortedByKey(sorted) && multiset(sorted) == multiset(output) &&
      |sorted| == |output| &&
      forall i :: 0 <= i < |sorted| ==> SortedLines(output, sep, fallback)[i] == OutputLine(sorted[i], sep, fallback))
  {
    var sorted := SortByKey(output);
    assert |sorted| == |multiset(sorted)| == |multiset(output)| == |output|;
  }

  /** The fallback text appears exactly for entries whose WA is None or "". */
  lemma OutputLineFallback(entry: (string, Option<string>))
    ensures OutputLine(entry, " - ", "Unknown WA") == entry.0 + " - Unknown WA" <==>
      !Truthy(entry.1) || entry.1.value == "Unknown WA"
  {
    var text := if Truthy(entry.1) then entry.1.value else "Unknown WA";
    assert OutputLine(entry, " - ", "Unknown WA") == (entry.0 + " - ") + text;
    assert entry.0 + " - Unknown WA" == (entry.0 + " - ") + "Unknown WA";
    if (entry.0 + " - ") + text == (entry.0 + " - ") + "Unknown WA" {
      assert text == ((entry.0 + " - ") + text)[|entry.0 + " - "|..];
    }
  }

  /** `update_roster` without its files: the printed changes and the reorganized
      known data, which keeps exactly the members of the known data.  It uses the
      intended `wa_changes`. */
  function UpdateRoster(wa: string -> Result<string>, current: Dict<string>, known: Dict<seq<string>>): (r: Result<(seq<string>, Dict<seq<string>>)>)
    ensures r.Err? <==> WaDeltas(wa, Normalize(current), Normalize(known)).Err?
    ensures r.Ok? ==> Keys(r.value.1) == Keys(Normalize(known))
    ensures r.Ok? ==> r.value.0 == PrintOutput(WaChanges(WaDeltas(wa, Normalize(current), Normalize(known)).value))
  {
    var deltas :- WaDeltas(wa, Normalize(current), Normalize(known));
    var reorganized := Reorganize(Normalize(known), ExtractNew(deltas));
    assert NormKeys(ByName, reorganized) == NormKeys(ByName, Normalize(known));
    FromPairsDistinct(ByName, reorganized);
    Ok((PrintOutput(WaChanges(deltas)), Normalize(reorganized)))
  }
}

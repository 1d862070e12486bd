/**
 * Logging a list of nations in (autologin/autologin.py): the input lines
 * are parsed into nation/key pairs, each nation is requested with its key,
 * and the result records its autologin key, region and WA membership, or
 * nothing when the API refused the shard request.  The two API calls are
 * oracles.
 */
module Autologins {
  import opened Outcomes
  import opened Strings
  import opened Dicts
  import opened Credentials

  /** `parse_line`: the stripped line split at the first delimiter only; the
      second token is None when the delimiter does not occur, and an empty
      delimiter raises ValueError. */
  function ParseLine(line: string, delimiter: string): (r: Result<(string, Option<string>)>)
    ensures r.Err? <==> delimiter == []
    ensures r.Ok? ==> (r.value.1.None? <==> !Contains(Strip(line), delimiter))
    ensures r.Ok? && r.value.1.None? ==> r.value.0 == Strip(line)
    ensures r.Ok? && r.value.1.Some? ==>
      r.value.0 + delimiter + r.value.1.value == Strip(line) && !Contains(r.value.0, delimiter)
  {
    if delimiter == [] then Err(ValueError(delimiter))
    else
      var tokens := SplitOnce(Strip(line), delimiter);
      Ok((tokens[0], if |tokens| > 1 then Some(tokens[1]) else None))
  }

  /** Only the first delimiter splits: the key keeps any later ones. */
  lemma ParseLineFirstComma(name: string, key: string)
    requires ',' !in name
    requires name == [] || !IsSpace(name[0])
    requires key != [] && !IsSpace(key[|key| - 1])
    ensures ParseLine(name + "," + key, ",") == Ok((name, Some(key)))
  {
    var line := name + "," + key;
    assert "," == [','];
    assert line == name + [','] + key;
    assert line[|line| - 1] == key[|key| - 1];
    assert name == [] ==> line[0] == ',';
    assert name != [] ==> line[0] == name[0];
    StripUnchanged(line);
    SplitOnceChar(name, ',', key);
  }

  /** The pair a line contributes to `nations`: only a line with a non-empty
      second token does. */
  function KeptPair(line: string): (r: Option<(string, string)>)
    ensures r.Some? <==> ParseLine(line, ",").value.1.Some? && ParseLine(line, ",").value.1.value != ""
    ensures r.Some? ==> r.value == (ParseLine(line, ",").value.0, ParseLine(line, ",").value.1.value)
  {
    match ParseLine(line, ",").value
    case (name, Some(key)) => if key != "" then Some((name, key)) else None
    case _ => None
  }

  /** `nations` of `main`: the dict comprehension over the parsed lines. */
  function Nations(lines: seq<string>): Dict<string> {
    FromPairs(Plain, PairsOf(lines, KeptPair))
  }

  /** A nation is listed exactly when one of its lines has a key. */
  lemma NationsListed(lines: seq<string>, name: string)
    ensures In(Plain, Nations(lines), name) <==>
      exists i :: 0 <= i < |lines| && KeptPair(lines[i]).Some? && KeptPair(lines[i]).value.0 == name
  {
    PairsOfIn(Plain, lines, KeptPair, name);
  }

  /** A later line for the same nation overwrites the key of an earlier one. */
  lemma NationsLastKey(lines: seq<string>, i: nat)
    requires i < |lines| && KeptPair(lines[i]).Some?
    requires forall j :: i < j < |lines| ==> KeptPair(lines[j]).None? || KeptPair(lines[j]).value.0 != KeptPair(lines[i]).value.0
    ensures Get(Plain, Nations(lines), KeptPair(lines[i]).value.0) == Ok(KeptPair(lines[i]).value.1)
  {
    var p := KeptPair(lines[i]).value;
    LastPairWins(Plain, lines, KeptPair, i, p.0, p.1);
  }

  /** What `autologin` records for a nation that logged in. */
  datatype Login = Login(autologin: string, region: string, wa: bool)

  /** The two calls `autologin` makes on `requester.nation(nation, auth)`:
      `shards("region", "ping", "wa")`, the shard texts by tag, and then
      `get_autologin()`, the nation's autologin key. */
  datatype LoginApi = LoginApi(
    shards: (string, Auth) -> Result<map<string, string>>,
    autologinKey: (string, Auth) -> Result<string>)

  /** The entry of one nation.  Only an APIError of the shard request is
      caught, giving None; any other error of it propagates, and so does every
      error of `get_autologin()` (an APIError included), which is called before
      the "region" and "unstatus" shards are read. */
  function LoginOf(api: LoginApi, nation: string, key: string, isAutologin: bool): (r: Result<Option<Login>>)
    ensures var auth := AuthOf(key, isAutologin);
      var shards, autologin := api.shards(nation, auth), api.autologinKey(nation, auth);
      (r == Ok(None) <==> shards.Err? && shards.error.IsApiError()) &&
      (r.Err? <==> (shards.Err? && !shards.error.IsApiError()) ||
                   (shards.Ok? && (autologin.Err? || !("region" in shards.value && "unstatus" in shards.value)))) &&
      (shards.Ok? && autologin.Err? ==> r == Err(autologin.error))
    ensures var auth := AuthOf(key, isAutologin);
      var shards, autologin := api.shards(nation, auth), api.autologinKey(nation, auth);
      r.Ok? && r.value.Some? ==>
        shards.Ok? && autologin.Ok? && r.value.value.autologin == autologin.value &&
        "region" in shards.value && r.value.value.region == shards.value["region"] &&
        "unstatus" in shards.value && (r.value.value.wa <==> StartsWith(shards.value["unstatus"], "WA"))
  {
    var auth := AuthOf(key, isAutologin);
    match api.shards(nation, auth)
    case Err(e) => if e.IsApiError() then Ok(None) else Err(e)
    case Ok(shards) =>
      match api.autologinKey(nation, auth)
      case Err(e) => Err(e)
      case Ok(autologin) =>
        if "region" !in shards then Err(KeyError("region"))
        else if "unstatus" !in shards then Err(KeyError("unstatus"))
        else Ok(Some(Login(autologin, shards["region"], StartsWith(shards["unstatus"], "WA"))))
  }

  /** Each nation's entry or error, in the order of `nations`. */
  function Logins(api: LoginApi, nations: Dict<string>, isAutologin: bool): (r: seq<Result<Option<Login>>>)
    ensures |r| == |nations| && forall i :: 0 <= i < |nations| ==> r[i] == LoginOf(api, nations[i].0, nations[i].1, isAutologin)
  {
    seq(|nations|, i requires 0 <= i < |nations| => LoginOf(api, nations[i].0, nations[i].1, isAutologin))
  }

  /** Keys paired with values. */
  function Zip<V>(keys: seq<string>, values: seq<V>): (r: Dict<V>)
    requires |keys| == |values|
    ensures |r| == |keys| && forall i :: 0 <= i < |keys| ==> r[i] == (keys[i], values[i])
  {
    seq(|keys|, i requires 0 <= i < |keys| => (keys[i], values[i]))
  }

  /** `autologin` as a value: every nation's entry, or the first error that escapes. */
  function AutologinSpec(api: LoginApi, nations: Dict<string>, isAutologin: bool): Result<Dict<Option<Login>>> {
    var values :- Collect(Logins(api, nations, isAutologin));
    Ok(Zip(Keys(nations), values))
  }

  /** The output has exactly the input nations as keys, in order, with None
      exactly for the nations whose shard request the API refused. */
  lemma AutologinEntries(api: LoginApi, nations: Dict<string>, isAutologin: bool, i: nat)
    requires i < |nations|
    ensures var r := AutologinSpec(api, nations, isAutologin);
      r.Ok? ==> Keys(r.value) == Keys(nations) &&
                (r.value[i].1.None? <==>
                   api.shards(nations[i].0, AuthOf(nations[i].1, isAutologin)).Err?) &&
                (r.value[i].1.Some? ==> Ok(r.value[i].1) == LoginOf(api, nations[i].0, nations[i].1, isAutologin))
  {
    var results := Logins(api, nations, isAutologin);
    assert results[i] == LoginOf(api, nations[i].0, nations[i].1, isAutologin);
  }

  /** Entering the next nation of a dict without repeated nations extends
      the entries made so far by one. */
  lemma ZipNext<V>(nations: Dict<string>, values: seq<V>, v: V, i: nat)
    requires Unique(Plain, nations) && i < |nations| && |values| == i
    ensures Put(Plain, Zip(Keys(nations)[..i], values), nations[i].0, v) == Zip(Keys(nations)[..i + 1], values + [v])
  {
    var output := Zip(Keys(nations)[..i], values);
    assert NormKeys(Plain, output) == NormKeys(Plain, nations)[..i];
    assert NormKeys(Plain, nations)[i] == nations[i].0;
    assert !In(Plain, output, nations[i].0);
  }

  /** `autologin`: the loop that fills `output`. */
  method Autologin(api: LoginApi, nations: Dict<string>, isAutologin: bool) returns (r: Result<Dict<Option<Login>>>)
    requires Unique(Plain, nations)
    ensures r == AutologinSpec(api, nations, isAutologin)
  {
    ghost var results := Logins(api, nations, isAutologin);
    ghost var values: seq<Option<Login>> := [];
    var output: Dict<Option<Login>> := [];
    var i := 0;
    while i < |nations|
      invariant 0 <= i <= |nations|
      invariant Collect(results[..i]) == Ok(values) && |values| == i
      invariant output == Zip(Keys(nations)[..i], values)
    {
      var (nation, key) := nations[i];
      assert results[i] == LoginOf(api, nation, key, isAutologin);
      CollectNext(results, i);
      var entry := LoginOf(api, nation, key, isAutologin);
      if entry.Err? {
        return Err(entry.error);
      }
      ZipNext(nations, values, entry.value, i);
      output := Put(Plain, output, nation, entry.value);
      values := values + [entry.value];
      i := i + 1;
    }
    assert results[..|nations|] == results;
    assert Keys(nations)[..|nations|] == Keys(nations);
    return Ok(output);
  }

  /** The summary line `main` prints for a nation. */
  function SummaryLine(nation: string, entry: Option<Login>): string {
    match entry
    case Some(l) =>
      "Successfully logged " + nation + " in. (Region: " + l.region + ")" + (if l.wa then " (WA)" else "")
    case None => "Failed to log in " + nation + ". Likely an incorrect password."
  }

  /** The line `main` writes to the output file for a nation: its autologin
      key, or "None". */
  function KeyLine(nation: string, entry: Option<Login>): string {
    nation + "," + (if entry.Some? then entry.value.autologin else "None")
  }

  /** A key file line read back by `parse_line` gives the nation and its key,
      so the file can be fed back in as autologin input. */
  lemma KeyLineRoundTrip(nation: string, entry: Option<Login>)
    requires ',' !in nation && (nation == [] || !IsSpace(nation[0]))
    requires entry.Some? ==> entry.value.autologin != [] && !IsSpace(entry.value.autologin[|entry.value.autologin| - 1])
    ensures ParseLine(KeyLine(nation, entry), ",") ==
      Ok((nation, Some(if entry.Some? then entry.value.autologin else "None")))
  {
    var key := if entry.Some? then entry.value.autologin else "None";
    assert "None"[3] == 'e';
    ParseLineFirstComma(nation, key);
  }

  /** A login that succeeded is reported with its region, and as WA exactly
      for a WA member; a failed one is reported as failed. */
  lemma SummaryLineShape(nation: string, entry: Option<Login>)
    ensures entry.Some? ==> StartsWith(SummaryLine(nation, entry), "Successfully logged " + nation + " in. (Region: " + entry.value.region + ")")
    ensures entry.Some? ==> (entry.value.wa <==> |SummaryLine(nation, entry)| == |"Successfully logged " + nation + " in. (Region: " + entry.value.region + ")"| + 5)
    ensures entry.None? ==> StartsWith(SummaryLine(nation, entry), "Failed to log in " + nation)
  {
  }
}

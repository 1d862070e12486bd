/**
 * The older single-file client (nsapi.py): the `NationStandard` wrapper that
 * finds a child of a nation node through a fixed tag table, the URL that
 * `raw_request` builds, the cookie policy of `update_nation_dump`, and the
 * dictionary `Nation.shards` builds from a response.  The network is left out:
 * a response is an `Element` handed in, the dump download is a logged event,
 * and the clock is a parameter.
 */
module LegacyClient {
  import opened Outcomes
  import opened Strings
  import opened Dates
  import opened Parser
  import opened Resources

  // ---- the tag table ----

  /** `NationStandard.tag_list`: the child order of a nation node in API version 9. */
  const TagList: seq<string> := [
    "NAME", "TYPE", "FULLNAME", "MOTTO", "CATEGORY", "UNSTATUS", "ENDORSEMENTS",
    "FREEDOM", "REGION", "POPULATION", "TAX", "ANIMAL", "CURRENCY", "DEMONYM",
    "DEMONYM2", "DEMONYM2PLURAL", "FLAG", "MAJORINDUSTRY", "GOVTPRIORITY", "GOVT",
    "FOUNDED", "FIRSTLOGIN", "LASTLOGIN", "LASTACTIVITY", "INFLUENCE",
    "FREEDOMSCORES", "PUBLICSECTOR", "DEATHS", "LEADER", "CAPITAL", "RELIGION",
    "FACTBOOKS", "DISPATCHES", "CARDCATEGORY"
  ]

  /** `{tag: index for index, tag in enumerate(ts)}`: a later duplicate overwrites. */
  function EnumerateMap(ts: seq<string>): map<string, nat>
    decreases |ts|
  {
    if ts == [] then map[] else EnumerateMap(ts[..|ts| - 1])[ts[|ts| - 1] := |ts| - 1]
  }

  /** The enumeration map inverts the list: its keys are the listed tags, each
      mapped to a position holding it, and to the last such position. */
  lemma {:induction false} EnumerateMapInverse(ts: seq<string>)
    ensures forall t :: t in EnumerateMap(ts) <==> t in ts
    ensures forall t :: t in EnumerateMap(ts) ==> EnumerateMap(ts)[t] < |ts| && ts[EnumerateMap(ts)[t]] == t
    ensures forall i :: 0 <= i < |ts| ==> i <= EnumerateMap(ts)[ts[i]]
    decreases |ts|
  {
    if ts != [] {
      var init := ts[..|ts| - 1];
      EnumerateMapInverse(init);
      assert ts == init + [ts[|ts| - 1]];
      forall i | 0 <= i < |ts| ensures i <= EnumerateMap(ts)[ts[i]] {
        if i < |ts| - 1 && ts[i] != ts[|ts| - 1] {
          assert ts[i] == init[i];
        }
      }
    }
  }

  /** `NationStandard.tag_map`. */
  function TagMap(): map<string, nat> {
    EnumerateMap(TagList)
  }

  /** `tag_list[tag_map[t]] == t` for every listed tag, and the table knows no other tag. */
  lemma TagMapInvertsTagList()
    ensures forall t :: t in TagMap() <==> t in TagList
    ensures forall t :: t in TagMap() ==> TagMap()[t] < |TagList| && TagList[TagMap()[t]] == t
  {
    EnumerateMapInverse(TagList);
  }

  // ---- NationStandard lookups ----

  /** What `find_tag` computes: the first child with the tag, ValueError when none has it. */
  function FirstWithTag(cs: seq<Element>, key: string): (r: Result<Element>) {
    if WithTag(cs, key) == [] then Err(ValueError(key)) else Ok(WithTag(cs, key)[0])
  }

  /** `find_tag` answers with the earliest child carrying the tag, and fails
      exactly when no child carries it. */
  lemma FirstWithTagSpec(cs: seq<Element>, key: string)
    ensures FirstWithTag(cs, key).Err? <==> forall c <- cs :: c.tag != key
    ensures FirstWithTag(cs, key).Err? ==> FirstWithTag(cs, key).error == ValueError(key)
    ensures FirstWithTag(cs, key).Ok? ==>
      exists i :: (0 <= i < |cs| && cs[i] == FirstWithTag(cs, key).value
        && cs[i].tag == key && forall j :: 0 <= j < i ==> cs[j].tag != key)
  {
    if WithTag(cs, key) == [] {
      WithTagNone(cs, key);
    } else {
      WithTagFirst(cs, key);
    }
  }

  /** `NationStandard.find_tag`: a scan over the children that returns at the first match. */
  method FindTag(node: Element, key: string) returns (r: Result<Element>)
    ensures r == FirstWithTag(node.children, key)
  {
    var cs := node.children;
    var i := 0;
    while i < |cs|
      invariant 0 <= i <= |cs|
      invariant WithTag(cs[..i], key) == []
    {
      if cs[i].tag == key {
        WithTagPrefix(cs, i, key);
        return Ok(cs[i]);
      }
      assert cs[..i + 1] == cs[..i] + [cs[i]];
      assert cs[..i + 1][..i] == cs[..i];
      i := i + 1;
    }
    assert cs[..i] == cs;
    return Err(ValueError(key));
  }

  /** When no child before `i` has the tag and child `i` does, it heads the tag's group. */
  lemma {:induction false} WithTagPrefix(cs: seq<Element>, i: nat, key: string)
    requires i < |cs| && WithTag(cs[..i], key) == [] && cs[i].tag == key
    ensures WithTag(cs, key) != [] && WithTag(cs, key)[0] == cs[i]
    decreases |cs|
  {
    if i < |cs| - 1 {
      var init := cs[..|cs| - 1];
      assert init[..i] == cs[..i];
      WithTagPrefix(init, i, key);
    } else {
      assert cs[..|cs| - 1] == cs[..i];
    }
  }

  /** What `NationStandard.__getitem__` computes: the child at the table position
      when it has the tag, else a search; a table position past the last child
      raises IndexError before any search. */
  function Lookup(node: Element, key: string): Result<Element> {
    if key in TagMap() then
      var i := TagMap()[key];
      if i >= |node.children| then Err(IndexError)
      else if node.children[i].tag == key then Ok(node.children[i])
      else FirstWithTag(node.children, key)
    else FirstWithTag(node.children, key)
  }

  /** A returned child always has the requested tag and is the child at the table
      position or the earliest one with the tag; IndexError comes exactly from a
      node too short for the table, ValueError exactly from a tag no child has. */
  lemma LookupSpec(node: Element, key: string)
    ensures Lookup(node, key).Ok? ==> Lookup(node, key).value.tag == key
    ensures Lookup(node, key).Ok? ==>
      (key in TagMap() && TagMap()[key] < |node.children| && Lookup(node, key).value == node.children[TagMap()[key]])
      || Lookup(node, key) == FirstWithTag(node.children, key)
    ensures Lookup(node, key) == Err(IndexError) <==> key in TagMap() && |node.children| <= TagMap()[key]
    ensures Lookup(node, key) == Err(ValueError(key)) <==>
      !(key in TagMap() && |node.children| <= TagMap()[key]) && forall c <- node.children :: c.tag != key
  {
    FirstWithTagSpec(node.children, key);
    if Lookup(node, key).Ok? && Lookup(node, key) == FirstWithTag(node.children, key) {
      var i :| 0 <= i < |node.children| && node.children[i] == FirstWithTag(node.children, key).value
        && node.children[i].tag == key;
    }
    if key in TagMap() && TagMap()[key] < |node.children| && node.children[TagMap()[key]].tag == key {
      assert node.children[TagMap()[key]] in node.children;
    }
  }

  /** `NationStandard.__getitem__`. */
  method GetItem(node: Element, key: string) returns (r: Result<Element>)
    ensures r == Lookup(node, key)
  {
    if key in TagMap() {
      var i := TagMap()[key];
      if i >= |node.children| {
        return Err(IndexError);
      }
      var child := node.children[i];
      if key == child.tag {
        return Ok(child);
      }
      r := FindTag(node, key);
    } else {
      r := FindTag(node, key);
    }
  }

  /** `NationStandard.basic`: the text of the looked-up child, "" when it has none. */
  method Basic(node: Element, key: string) returns (r: Result<string>)
    ensures r.Ok? <==> Lookup(node, key).Ok?
    ensures r.Ok? ==> r.value == Content(Lookup(node, key).value)
    ensures r.Err? ==> r.error == Lookup(node, key).error
  {
    var child :- GetItem(node, key);
    return Ok(Content(child));
  }

  // ---- requests ----

  const ApiBase := "https://www.nationstates.net/cgi-bin/api.cgi?"

  /** The query prefix every request URL starts with. */
  function QueryPrefix(api: string): string {
    ApiBase + api + "&q="
  }

  /** `raw_request`'s target: the query prefix, then the shards joined by '+' when there are any. */
  function RequestUrl(api: string, shards: seq<string>): (url: string)
    ensures QueryPrefix(api) <= url
    ensures shards == [] ==> url == QueryPrefix(api)
  {
    QueryPrefix(api) + (if shards != [] then Join(shards, "+") else "")
  }

  /** The part after "&q=" splits back into the shards when no shard name holds a '+'. */
  lemma RequestUrlShards(api: string, shards: seq<string>)
    requires shards != [] && forall p <- shards :: '+' !in p
    ensures Split(RequestUrl(api, shards)[|QueryPrefix(api)|..], "+") == shards
  {
    var url := RequestUrl(api, shards);
    assert url[|QueryPrefix(api)|..] == Join(shards, ['+']);
    SplitJoin(shards, '+');
  }

  /** `nation_shard_text`: the text of the response's first child, "" when it has
      none; a response without children raises IndexError. */
  function ShardText(response: Element): (r: Result<string>)
    ensures r.Ok? <==> response.children != []
    ensures r.Ok? ==> r.value == Content(response.children[0])
  {
    if response.children == [] then Err(IndexError) else Ok(Content(response.children[0]))
  }

  /** The inner loop of `Nation.shards` for one response child: every shard name gets `v`. */
  function AllTo(shards: seq<string>, v: string): map<string, string> {
    map s | s in shards :: v
  }

  /** `Nation.shards`: the comprehension iterates over the response children and,
      inside that, over the requested shard names, so each child overwrites every entry. */
  function ShardsDict(nodes: seq<Element>, shards: seq<string>): map<string, string>
    decreases |nodes|
  {
    if nodes == [] then map[]
    else ShardsDict(nodes[..|nodes| - 1], shards) + AllTo(shards, Content(nodes[|nodes| - 1]))
  }

  /** Every requested shard ends up with the text of the LAST child of the response,
      whichever shard that child answers; an empty response gives an empty dictionary. */
  lemma {:induction false} ShardsDictLastChild(nodes: seq<Element>, shards: seq<string>)
    ensures nodes == [] ==> ShardsDict(nodes, shards) == map[]
    ensures nodes != [] ==> ShardsDict(nodes, shards) == AllTo(shards, Content(nodes[|nodes| - 1]))
    decreases |nodes|
  {
    if nodes != [] {
      var init := nodes[..|nodes| - 1];
      ShardsDictLastChild(init, shards);
      var m := ShardsDict(nodes, shards);
      var expected := AllTo(shards, Content(nodes[|nodes| - 1]));
      assert m.Keys == expected.Keys;
    }
  }

  /** `Nation.shard(s)`: the entry for `s`; KeyError when the response had no child. */
  function Shard(response: Element, shard: string): (r: Result<string>)
    ensures r.Ok? <==> response.children != []
    ensures r.Ok? ==> r.value == Content(response.children[|response.children| - 1])
    ensures r.Err? ==> r.error == KeyError(shard)
  {
    var d := ShardsDict(response.children, [shard]);
    ShardsDictLastChild(response.children, [shard]);
    if shard in d then Ok(d[shard]) else Err(KeyError(shard))
  }

  // ---- the nation dump cookie ----

  const TimestringKey := "dump_timestring"
  const NationDumpSource := "https://www.nationstates.net/pages/nations.xml.gz"

  /** The cookie file: absent, not valid JSON, or a JSON object of strings. */
  datatype CookieFile = NoCookie | Unreadable | Cookie(fields: map<string, string>)

  /** What `update_nation_dump` decides: whether to download and the cookie it writes. */
  datatype DumpRefresh = DumpRefresh(download: bool, cookie: map<string, string>)

  /** The clock range in which `current_dump_day().isoformat()` is defined. */
  predicate ClockInRange(now: DateTime) {
    ValidTime(now) && 2 <= now.date.year <= 9999
  }

  /** The dump day of a clock in range has a four-digit year. */
  lemma DumpDayYear(now: DateTime)
    requires ClockInRange(now)
    ensures 1 <= CurrentDumpDay(now).year <= 9999
  {
  }

  /** The ISO text of `current_dump_day()`. */
  function DumpDayText(now: DateTime): (s: string)
    requires ClockInRange(now)
    ensures ParseIsoDate(s) == Ok(CurrentDumpDay(now))
  {
    DumpDayYear(now);
    IsoRoundTrip(CurrentDumpDay(now));
    IsoFormat(CurrentDumpDay(now))
  }

  /** The decision of `update_nation_dump` for the cookie it finds, whether the dump
      file exists, and the clock: a missing cookie, a cookie without the timestring or
      one naming a day before the current dump day means download and record that day;
      otherwise download only when the dump file is missing. */
  function NationDumpPlan(cookie: CookieFile, dumpPresent: bool, now: DateTime): Result<DumpRefresh>
    requires ClockInRange(now)
  {
    match cookie
    case NoCookie => Ok(DumpRefresh(true, map[TimestringKey := DumpDayText(now)]))
    case Unreadable => Err(JsonError)
    case Cookie(fields) =>
      if TimestringKey !in fields then Ok(DumpRefresh(true, fields[TimestringKey := DumpDayText(now)]))
      else
        var recorded :- ParseIsoDate(fields[TimestringKey]);
        if Before(recorded, CurrentDumpDay(now)) then Ok(DumpRefresh(true, fields[TimestringKey := DumpDayText(now)]))
        else Ok(DumpRefresh(!dumpPresent, fields))
  }

  /** The cookie is stale when it is missing, lacks the timestring, or names an earlier day. */
  predicate CookieStale(cookie: CookieFile, now: DateTime)
    requires ClockInRange(now)
  {
    cookie.NoCookie? ||
    (cookie.Cookie? && (TimestringKey !in cookie.fields ||
      (ParseIsoDate(cookie.fields[TimestringKey]).Ok? &&
       Before(ParseIsoDate(cookie.fields[TimestringKey]).value, CurrentDumpDay(now)))))
  }

  /** The policy in full: an error exactly for an unreadable cookie or a timestring
      `fromisoformat` refuses; a download exactly when the cookie is stale or the
      dump file is missing; a stale cookie gets the current dump day and keeps its
      other fields, a fresh one is written back unchanged. */
  lemma NationDumpPlanSpec(cookie: CookieFile, dumpPresent: bool, now: DateTime)
    requires ClockInRange(now)
    ensures NationDumpPlan(cookie, dumpPresent, now).Err? <==>
      cookie.Unreadable? ||
      (cookie.Cookie? && TimestringKey in cookie.fields && ParseIsoDate(cookie.fields[TimestringKey]).Err?)
    ensures NationDumpPlan(cookie, dumpPresent, now).Ok? ==>
      var plan := NationDumpPlan(cookie, dumpPresent, now).value;
      (plan.download <==> CookieStale(cookie, now) || !dumpPresent) &&
      (CookieStale(cookie, now) ==>
        ParseIsoDate(plan.cookie[TimestringKey]) == Ok(CurrentDumpDay(now)) &&
        forall k :: k != TimestringKey ==> (k in plan.cookie <==> cookie.Cookie? && k in cookie.fields)) &&
      (!CookieStale(cookie, now) ==> plan.cookie == cookie.fields)
  {
  }

  /** After an update, a second one at the same clock, with the dump file in
      place, downloads nothing and writes the same cookie. */
  lemma NationDumpSettles(cookie: CookieFile, dumpPresent: bool, now: DateTime)
    requires ClockInRange(now)
    requires NationDumpPlan(cookie, dumpPresent, now).Ok?
    ensures var first := NationDumpPlan(cookie, dumpPresent, now).value;
      NationDumpPlan(Cookie(first.cookie), true, now) == Ok(DumpRefresh(false, first.cookie))
  {
  }

  /** The requester's view of the file system: the paths that exist, the cookie
      file, and the log of downloaded URLs. */
  class LegacyRequester {
    var files: set<string>
    var cookie: CookieFile
    var downloads: seq<string>
    const dumpPath: string

    constructor(dumpPath: string, files: set<string>, cookie: CookieFile)
      ensures this.dumpPath == dumpPath && this.files == files && this.cookie == cookie
      ensures downloads == []
    {
      this.dumpPath := dumpPath;
      this.files := files;
      this.cookie := cookie;
      downloads := [];
    }

    /** `download_nation_dump`: fetch the dump into its path. */
    method DownloadNationDump()
      modifies this
      ensures files == old(files) + {dumpPath}
      ensures downloads == old(downloads) + [NationDumpSource]
      ensures cookie == old(cookie)
    {
      files := files + {dumpPath};
      downloads := downloads + [NationDumpSource];
    }

    /** `update_nation_dump`: follow the cookie policy, then always write the cookie back. */
    method UpdateNationDump(now: DateTime) returns (r: Result<()>)
      requires ClockInRange(now)
      modifies this
      ensures var plan := NationDumpPlan(old(cookie), dumpPath in old(files), now);
        (plan.Err? ==> r == Err(plan.error) && files == old(files) && downloads == old(downloads) && cookie == old(cookie)) &&
        (plan.Ok? ==> (r.Ok? && cookie == Cookie(plan.value.cookie) &&
          files == old(files) + (if plan.value.download then {dumpPath} else {}) &&
          downloads == old(downloads) + (if plan.value.download then [NationDumpSource] else [])))
      ensures r.Ok? ==> dumpPath in files
    {
      var fields: map<string, string>;
      if cookie.Unreadable? {
        return Err(JsonError);
      } else if cookie.NoCookie? {
        DownloadNationDump();
        fields := map[TimestringKey := DumpDayText(now)];
      } else {
        fields := cookie.fields;
        var stale := TimestringKey !in fields;
        if !stale {
          var recorded := ParseIsoDate(fields[TimestringKey]);
          if recorded.Err? {
            return Err(recorded.error);
          }
          stale := Before(recorded.value, CurrentDumpDay(now));
        }
        if stale {
          DownloadNationDump();
          fields := fields[TimestringKey := DumpDayText(now)];
        } else if dumpPath !in files {
          DownloadNationDump();
        }
      }
      cookie := Cookie(fields);
      r := Ok(());
    }
  }
}

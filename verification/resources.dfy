/**
 * Retrievable resources and the data dumps (nsapi/resources.py).  A resource
 * is a source URL and a file name; a daily resource is regenerated once a day
 * at a fixed time.  The file system is abstracted as the set of existing
 * paths, the JSON marker file as a map from resource name to the instant it
 * was last fetched, and every download is logged.  The clock ("utcnow") is a
 * parameter, and the parsed dump file is an input.
 */
module Resources {
  import opened Outcomes
  import opened Dates
  import opened Parser
  import opened Models

  // ---- staleness ----

  /** A plain `Resource` never goes stale; a `DailyResource` is regenerated at `updateTime`
      (seconds after midnight UTC). */
  datatype Policy = Static | Daily(updateTime: int)

  datatype Resource = Resource(source: string, name: string, policy: Policy)

  predicate ValidResource(r: Resource) {
    r.policy.Daily? ==> 0 <= r.policy.updateTime < 86400
  }

  /** The instant `DailyResource.outdated` compares against: `updateTime` on the
      day of `previous`, moved one day on when that is before `previous`. */
  function NextUpdate(previous: DateTime, updateTime: int): (r: DateTime)
    requires ValidTime(previous) && 0 <= updateTime < 86400
    ensures ValidTime(r) && r.second == updateTime
    ensures !Earlier(r, previous) && Earlier(r, AddDay(previous))
  {
    var candidate := DateTime(previous.date, updateTime);
    if Earlier(candidate, previous) then AddDay(candidate) else candidate
  }

  /** It is the FIRST instant at or after `previous` whose time of day is `updateTime`. */
  lemma NextUpdateFirst(previous: DateTime, updateTime: int, t: DateTime)
    requires ValidTime(previous) && 0 <= updateTime < 86400
    requires ValidTime(t) && t.second == updateTime && !Earlier(t, previous)
    ensures !Earlier(t, NextUpdate(previous, updateTime))
  {
    NextDayAdjacent(previous.date, t.date);
  }

  /** `Resource.outdated` / `DailyResource.outdated(previous, current)`. */
  predicate Outdated(res: Resource, previous: DateTime, current: DateTime)
    requires ValidResource(res) && ValidTime(previous)
  {
    match res.policy
    case Static => false
    case Daily(u) => !Earlier(current, NextUpdate(previous, u))
  }

  /** A daily resource is never stale before it was fetched and always stale a day after. */
  lemma OutdatedWindow(res: Resource, previous: DateTime, current: DateTime)
    requires ValidResource(res) && ValidTime(previous) && res.policy.Daily?
    ensures Earlier(current, previous) ==> !Outdated(res, previous, current)
    ensures !Earlier(current, AddDay(previous)) ==> Outdated(res, previous, current)
  {
  }

  /** Staleness only grows as the current time moves on. */
  lemma OutdatedMonotone(res: Resource, previous: DateTime, c1: DateTime, c2: DateTime)
    requires ValidResource(res) && ValidTime(previous)
    requires Outdated(res, previous, c1) && !Earlier(c2, c1)
    ensures Outdated(res, previous, c2)
  {
  }

  /** A plain resource is never outdated. */
  lemma StaticNeverOutdated(res: Resource, previous: DateTime, current: DateTime)
    requires ValidResource(res) && ValidTime(previous) && res.policy == Static
    ensures !Outdated(res, previous, current)
  {
  }

  // ---- dump days ----

  const DumpAvailableSecond := 7 * 3600
  const GenerationTime := 6 * 3600

  /** `current_dump_day()`: yesterday from 07:00 UTC on, the day before yesterday before that. */
  function CurrentDumpDay(now: DateTime): (d: Date)
    requires ValidTime(now)
    ensures Valid(d)
    ensures var available := DateTime(NextDay(d), DumpAvailableSecond);
      !Earlier(now, available) && Earlier(now, AddDay(available))
  {
    if Hour(now) >= 7 then PrevDay(now.date) else PrevDay(PrevDay(now.date))
  }

  /** `last_dump_timestamp()`: the latest 06:00 UTC at or before now (as a date-time). */
  function LastDumpTimestamp(now: DateTime): (t: DateTime)
    requires ValidTime(now)
    ensures ValidTime(t) && t.second == GenerationTime
    ensures !Earlier(now, t) && Earlier(now, AddDay(t))
  {
    if Hour(now) >= 6 then DateTime(now.date, GenerationTime) else DateTime(PrevDay(now.date), GenerationTime)
  }

  /** Outside the hour from 06:00 to 07:00 the dump day is the day before the last generation. */
  lemma DumpDayBeforeGeneration(now: DateTime)
    requires ValidTime(now) && Hour(now) != 6
    ensures NextDay(CurrentDumpDay(now)) == LastDumpTimestamp(now).date
  {
    NextPrevInverse(now.date);
    NextPrevInverse(PrevDay(now.date));
  }

  /** Between 06:00 and 07:00 the new dump has been generated but is not yet taken as available. */
  lemma DumpDayLagsInSixthHour(now: DateTime)
    requires ValidTime(now) && Hour(now) == 6
    ensures NextDay(NextDay(CurrentDumpDay(now))) == LastDumpTimestamp(now).date
  {
    NextPrevInverse(now.date);
    NextPrevInverse(PrevDay(now.date));
  }

  // ---- the resource manager ----

  /** `resolve(resource, target)`: `target or resource.name`. */
  function Resolve(res: Resource, target: Option<string>): (path: string)
    ensures target.Some? && target.value != "" ==> path == target.value
    ensures (target.None? || target.value == "") ==> path == res.name
  {
    if target.Some? && target.value != "" then target.value else res.name
  }

  /** An entry of the marker: text `datetime.fromisoformat` reads as a fetch time,
      or text it refuses. */
  datatype MarkerEntry = Stamp(time: DateTime) | Unparsed(text: string)

  /** The marker file: absent, unreadable as JSON, or a map from name to entry. */
  datatype MarkerFile = Missing | Corrupt | Stored(entries: map<string, MarkerEntry>)

  predicate MarkerValid(m: MarkerFile) {
    m.Stored? ==> forall k :: k in m.entries && m.entries[k].Stamp? ==> ValidTime(m.entries[k].time)
  }

  /** `update` raises before downloading or writing anything: the marker is not
      JSON, or the resource's own entry is not an ISO date-time. */
  predicate Unreadable(res: Resource, m: MarkerFile) {
    m.Corrupt? || (m.Stored? && res.name in m.entries && m.entries[res.name].Unparsed?)
  }

  /** `update` takes the download branch: no marker, no entry for the resource, or
      an outdated one. */
  predicate Refetched(res: Resource, m: MarkerFile, now: DateTime)
    requires ValidResource(res) && MarkerValid(m)
  {
    m.Missing? || (m.Stored? && (res.name !in m.entries ||
      (m.entries[res.name].Stamp? && Outdated(res, m.entries[res.name].time, now))))
  }

  datatype Download = Download(source: string, path: string)

  datatype UpdateOutcome = UpdateOutcome(download: bool, entries: map<string, MarkerEntry>)

  /** What `update` decides: whether a download happens, and the marker it writes.
      A marker that is not JSON, or whose entry for the resource `fromisoformat`
      refuses, makes `update` raise before anything happens; other entries are
      never parsed and are written back as they were read. */
  function UpdatePlan(res: Resource, target: Option<string>, files: set<string>, marker: MarkerFile, now: DateTime): Result<UpdateOutcome>
    requires ValidResource(res) && MarkerValid(marker)
  {
    match marker
    case Corrupt => Err(JsonError)
    case Missing => Ok(UpdateOutcome(true, map[res.name := Stamp(now)]))
    case Stored(m) =>
      if res.name !in m then Ok(UpdateOutcome(true, m[res.name := Stamp(now)]))
      else match m[res.name]
        case Unparsed(text) => Err(ValueError(text))
        case Stamp(previous) =>
          if Outdated(res, previous, now) then Ok(UpdateOutcome(true, m[res.name := Stamp(now)]))
          else Ok(UpdateOutcome(Resolve(res, target) !in files, m))
  }

  /** `update` downloads exactly when the marker is missing, has no entry for the
      resource, has a stale entry, or the file is absent; it fails exactly on a
      marker that is not JSON (a JSON error) or whose entry for the resource is
      not an ISO date-time (a ValueError naming that text). */
  lemma UpdatePlanDownload(res: Resource, target: Option<string>, files: set<string>, marker: MarkerFile, now: DateTime)
    requires ValidResource(res) && MarkerValid(marker)
    ensures UpdatePlan(res, target, files, marker, now).Err? <==> Unreadable(res, marker)
    ensures marker.Corrupt? ==> UpdatePlan(res, target, files, marker, now) == Err(JsonError)
    ensures marker.Stored? && res.name in marker.entries && marker.entries[res.name].Unparsed? ==>
      UpdatePlan(res, target, files, marker, now) == Err(ValueError(marker.entries[res.name].text))
    ensures UpdatePlan(res, target, files, marker, now).Ok? ==>
      (UpdatePlan(res, target, files, marker, now).value.download <==>
        (Refetched(res, marker, now) || Resolve(res, target) !in files))
  {
  }

  /** The written marker records `now` for the resource when it was refetched and
      is otherwise the marker read; every other entry is kept. */
  lemma UpdatePlanMarker(res: Resource, target: Option<string>, files: set<string>, marker: MarkerFile, now: DateTime)
    requires ValidResource(res) && MarkerValid(marker) && !Unreadable(res, marker)
    ensures var e := UpdatePlan(res, target, files, marker, now).value.entries;
      var refreshed := Refetched(res, marker, now);
      (refreshed ==> res.name in e && e[res.name] == Stamp(now)) &&
      (!refreshed ==> e == marker.entries) &&
      (forall k :: k != res.name ==> (k in e <==> marker.Stored? && k in marker.entries)) &&
      (forall k :: k != res.name && k in e ==> e[k] == marker.entries[k])
  {
  }

  /** Running `update` twice at the same instant downloads at most once: the second
      run finds a fresh entry and the file, unless `now` falls exactly on the
      resource's daily update time. */
  lemma UpdateIdempotent(res: Resource, target: Option<string>, files: set<string>, marker: MarkerFile, now: DateTime)
    requires ValidResource(res) && MarkerValid(marker) && !Unreadable(res, marker) && ValidTime(now)
    requires res.policy.Daily? ==> res.policy.updateTime != now.second
    ensures var first := UpdatePlan(res, target, files, marker, now).value;
      var files' := if first.download then files + {Resolve(res, target)} else files;
      var marker' := Stored(first.entries);
      MarkerValid(marker') &&
      UpdatePlan(res, target, files', marker', now) == Ok(UpdateOutcome(false, first.entries))
  {
    var first := UpdatePlan(res, target, files, marker, now).value;
    var e := first.entries;
    assert res.name in e && (e[res.name] == Stamp(now) || (marker.Stored? && e == marker.entries));
    if res.policy.Daily? && e[res.name] == Stamp(now) {
      var next := NextUpdate(now, res.policy.updateTime);
      assert next != now;
    }
  }

  /** A snapshot of what the resource manager works on: the existing files, the
      marker file and the downloads made so far. */
  datatype Store = Store(files: set<string>, marker: MarkerFile, downloads: seq<Download>)

  /** The store after `verify`: the file is fetched exactly when it is missing. */
  function AfterVerify(res: Resource, target: Option<string>, s: Store): (t: Store)
    ensures t.marker == s.marker && Resolve(res, target) in t.files
    ensures Resolve(res, target) in s.files ==> t == s
    ensures Resolve(res, target) !in s.files ==>
      t.files == s.files + {Resolve(res, target)} &&
      t.downloads == s.downloads + [Download(res.source, Resolve(res, target))]
  {
    var path := Resolve(res, target);
    if path in s.files then s
    else Store(s.files + {path}, s.marker, s.downloads + [Download(res.source, path)])
  }

  /** The store after `update`: the plan's download, if any, and its marker; an
      unreadable marker is reported and leaves the store as it was. */
  function AfterUpdate(res: Resource, target: Option<string>, s: Store, now: DateTime): Result<Store>
    requires ValidResource(res) && MarkerValid(s.marker)
  {
    match UpdatePlan(res, target, s.files, s.marker, now)
    case Err(e) => Err(e)
    case Ok(plan) =>
      var path := Resolve(res, target);
      Ok(Store(s.files + (if plan.download then {path} else {}), Stored(plan.entries),
               s.downloads + (if plan.download then [Download(res.source, path)] else [])))
  }

  /** Verifying twice changes nothing the first run did not; after a successful
      update the resource's file exists and a verify of it is a no-op. */
  lemma {:induction false} VerifyAfterUpdate(res: Resource, target: Option<string>, s: Store, now: DateTime)
    requires ValidResource(res) && MarkerValid(s.marker) && ValidTime(now)
    ensures AfterVerify(res, target, AfterVerify(res, target, s)) == AfterVerify(res, target, s)
    ensures AfterUpdate(res, target, s, now).Err? <==> Unreadable(res, s.marker)
    ensures AfterUpdate(res, target, s, now).Ok? ==>
      var t := AfterUpdate(res, target, s, now).value;
      MarkerValid(t.marker) && AfterVerify(res, target, t) == t && |t.downloads| <= |s.downloads| + 1
  {
    UpdatePlanDownload(res, target, s.files, s.marker, now);
    if !Unreadable(res, s.marker) {
      var plan := UpdatePlan(res, target, s.files, s.marker, now).value;
      UpdatePlanMarker(res, target, s.files, s.marker, now);
      assert MarkerValid(Stored(plan.entries));

    }
  }

  /** The abstract state `ResourceManager` works on: the existing files, the marker
      file and the downloads made so far. */
  class ResourceManager {
    var files: set<string>
    var marker: MarkerFile
    var downloads: seq<Download>

    ghost predicate Valid()
      reads this
    {
      MarkerValid(marker)
    }

    /** The manager's state as a value. */
    ghost function State(): Store
      reads this
    {
      Store(files, marker, downloads)
    }

    constructor(files: set<string>, marker: MarkerFile)
      requires MarkerValid(marker)
      ensures Valid()
      ensures this.files == files && this.marker == marker && downloads == []
    {
      this.files := files;
      this.marker := marker;
      downloads := [];
    }

    /** `download`: fetch the source to the resolved path. */
    method DownloadResource(res: Resource, target: Option<string>)
      modifies this
      ensures files == old(files) + {Resolve(res, target)}
      ensures downloads == old(downloads) + [Download(res.source, Resolve(res, target))]
      ensures marker == old(marker)
    {
      var path := Resolve(res, target);
      downloads := downloads + [Download(res.source, path)];
      files := files + {path};
    }

    /** `verify`: download exactly when no file exists at the resolved path. */
    method Verify(res: Resource, target: Option<string>)
      modifies this
      ensures marker == old(marker)
      ensures Resolve(res, target) in old(files) ==> files == old(files) && downloads == old(downloads)
      ensures Resolve(res, target) !in old(files) ==>
        files == old(files) + {Resolve(res, target)} &&
        downloads == old(downloads) + [Download(res.source, Resolve(res, target))]
    {
      if Resolve(res, target) !in files {
        DownloadResource(res, target);
      }
    }

    /** `update(resource, target)` at instant `now`: carries out `UpdatePlan`. */
    method Update(res: Resource, target: Option<string>, now: DateTime) returns (r: Result<()>)
      requires Valid() && ValidResource(res) && ValidTime(now)
      modifies this
      ensures Valid()
      ensures var plan := UpdatePlan(res, target, old(files), old(marker), now);
        (plan.Err? ==> r == Err(plan.error) && files == old(files) && marker == old(marker) && downloads == old(downloads)) &&
        (plan.Ok? ==> (r.Ok? && marker == Stored(plan.value.entries) &&
          files == old(files) + (if plan.value.download then {Resolve(res, target)} else {}) &&
          downloads == old(downloads) + (if plan.value.download then [Download(res.source, Resolve(res, target))] else [])))
    {
      if marker.Corrupt? {
        return Err(JsonError);
      }
      var entries: map<string, MarkerEntry>;
      if marker.Missing? {
        DownloadResource(res, target);
        entries := map[res.name := Stamp(now)];
      } else if res.name in marker.entries && marker.entries[res.name].Unparsed? {
        return Err(ValueError(marker.entries[res.name].text));
      } else if res.name !in marker.entries || Outdated(res, marker.entries[res.name].time, now) {
        var m := marker.entries;
        DownloadResource(res, target);
        entries := m[res.name := Stamp(now)];
      } else {
        Verify(res, target);
        entries := marker.entries;
      }
      marker := Stored(entries);
      r := Ok(());
    }
  }

  // ---- data dumps ----

  /** `DumpManager.resources[key]`: the resource of a dump name, None where the
      dict has no such key. */
  function DumpResource(key: string): (r: Option<Resource>)
    ensures r.Some? ==> ValidResource(r.value)
  {
    if key == "regions" then
      Some(Resource("https://www.nationstates.net/pages/regions.xml.gz", "regions.xml.gz", Daily(GenerationTime)))
    else if key == "nations" then
      Some(Resource("https://www.nationstates.net/pages/nations.xml.gz", "nations.xml.gz", Daily(GenerationTime)))
    else if key == "cardlist_S1" then
      Some(Resource("https://github.com/HN67/nsapi/raw/master/resources/cardlist_S1.xml.gz", "cardlist_S1.xml.gz", Static))
    else if key == "cardlist_S2" then
      Some(Resource("https://github.com/HN67/nsapi/raw/master/resources/cardlist_S2.xml.gz", "cardlist_S2.xml.gz", Static))
    else
      None
  }

  /** The live dumps are regenerated daily at 06:00 UTC; the card lists never
      change; no other name has a resource. */
  lemma DumpResourcePolicies(key: string)
    ensures DumpResource(key).Some? <==> key in {"regions", "nations", "cardlist_S1", "cardlist_S2"}
    ensures key == "regions" || key == "nations" ==> DumpResource(key).value.policy == Daily(GenerationTime)
    ensures key == "cardlist_S1" || key == "cardlist_S2" ==> DumpResource(key).value.policy == Static
  {
  }

  /** `archived_dump(date, dump)`: the static archive file of that day. */
  function ArchivedDump(date: Date, dump: string): (r: Resource)
    requires Valid(date) && 1 <= date.year <= 9999
    ensures ValidResource(r) && r.policy == Static
  {
    var name := IsoFormat(date) + "-" + dump + "-xml.gz";
    Resource("https://www.nationstates.net/archive/" + dump + "/" + name, name, Static)
  }

  /** An archive file name starts with the ISO date it was built from, which reads
      back as that date; the source ends with the file name under the dump's
      directory; and an archived dump is never outdated. */
  lemma ArchivedDumpSpec(date: Date, dump: string, previous: DateTime, current: DateTime)
    requires Valid(date) && 1 <= date.year <= 9999 && ValidTime(previous)
    ensures var r := ArchivedDump(date, dump);
      |r.name| == 10 + 1 + |dump| + 7 && ParseIsoDate(r.name[..10]) == Ok(date) &&
      r.name[10..] == "-" + dump + "-xml.gz" &&
      r.source == "https://www.nationstates.net/archive/" + dump + "/" + r.name &&
      !Outdated(r, previous, current)
  {
    var r := ArchivedDump(date, dump);
    assert r.name[..10] == IsoFormat(date);
    IsoRoundTrip(date);
  }

  // ---- iterating over a dump ----

  /** The events `iterparse(events=("start", "end"))` reports. */
  datatype Event = Start(element: Element) | End(element: Element)

  /** The events of an element: its start, its children's events in order, its end. */
  function Events(e: Element): (r: seq<Event>)
    ensures |r| >= 2 && r[0] == Start(e) && r[|r| - 1] == End(e)
    decreases e
  {
    [Start(e)] + ChildEvents(e.children) + [End(e)]
  }

  function ChildEvents(cs: seq<Element>): seq<Event>
    decreases cs
  {
    if cs == [] then [] else Events(cs[0]) + ChildEvents(cs[1..])
  }

  /** The elements in the order their end events arrive (children before parents). */
  function PostOrder(e: Element): (r: seq<Element>)
    ensures |r| >= 1 && r[|r| - 1] == e
    decreases e
  {
    ChildPostOrder(e.children) + [e]
  }

  function ChildPostOrder(cs: seq<Element>): seq<Element>
    decreases cs
  {
    if cs == [] then [] else PostOrder(cs[0]) + ChildPostOrder(cs[1..])
  }

  /** The elements of the end events, in order. */
  function Ends(evs: seq<Event>): seq<Element>
    decreases |evs|
  {
    if evs == [] then []
    else Ends(evs[..|evs| - 1]) + (if evs[|evs| - 1].End? then [evs[|evs| - 1].element] else [])
  }

  lemma EndsSnoc(evs: seq<Event>, ev: Event)
    ensures Ends(evs + [ev]) == Ends(evs) + (if ev.End? then [ev.element] else [])
  {
    assert (evs + [ev])[..|evs|] == evs;
  }

  lemma {:induction false} EndsAppend(a: seq<Event>, b: seq<Event>)
    ensures Ends(a + b) == Ends(a) + Ends(b)
    decreases |b|
  {
    if b != [] {
      var init, ev := b[..|b| - 1], b[|b| - 1];
      assert b == init + [ev];
      assert a + b == (a + init) + [ev];
      EndsAppend(a, init);
      EndsSnoc(a + init, ev);
      EndsSnoc(init, ev);
      var x := if ev.End? then [ev.element] else [];
      assert Ends(a + b) == (Ends(a) + Ends(init)) + x;
      assert (Ends(a) + Ends(init)) + x == Ends(a) + (Ends(init) + x);
    } else {
      assert a + b == a;
      assert Ends(a) + [] == Ends(a);
    }
  }

  /** The end events of an element arrive in post-order. */
  lemma {:induction false} EndsArePostOrder(e: Element)
    ensures Ends(Events(e)) == PostOrder(e)
    decreases e
  {
    ChildEndsArePostOrder(e.children);
    EndsAppend([Start(e)], ChildEvents(e.children));
    EndsAppend([Start(e)] + ChildEvents(e.children), [End(e)]);
    assert Ends([Start(e)]) == [] by { assert [Start(e)][..0] == []; }
    assert Ends([End(e)]) == [e] by { assert [End(e)][..0] == []; }
  }

  lemma {:induction false} ChildEndsArePostOrder(cs: seq<Element>)
    ensures Ends(ChildEvents(cs)) == ChildPostOrder(cs)
    decreases cs
  {
    if cs != [] {
      EndsArePostOrder(cs[0]);
      ChildEndsArePostOrder(cs[1..]);
      EndsAppend(Events(cs[0]), ChildEvents(cs[1..]));
    }
  }

  /** `(not tags) or element.tag in tags`. */
  predicate Wanted(e: Element, tags: set<string>) {
    tags == {} || e.tag in tags
  }

  function Filter(es: seq<Element>, tags: set<string>): (r: seq<Element>)
    ensures |r| <= |es|
    decreases |es|
  {
    if es == [] then []
    else Filter(es[..|es| - 1], tags) + (if Wanted(es[|es| - 1], tags) then [es[|es| - 1]] else [])
  }

  /** What `root.clear()` leaves of an element: its tag, with no text, no
      attributes and no children. */
  function Cleared(e: Element): Element {
    Element(e.tag, None, map[], [])
  }

  /** Some element of the subtree of `c` is yielded. */
  predicate Yields(c: Element, tags: set<string>) {
    Filter(PostOrder(c), tags) != []
  }

  /** `cs[k]` is the last of `cs` whose subtree holds a yielded element. */
  predicate LastYielding(cs: seq<Element>, k: int, tags: set<string>) {
    0 <= k < |cs| && Yields(cs[k], tags) && forall j :: k < j < |cs| ==> !Yields(cs[j], tags)
  }

  /** The root object as the tree builder leaves it once the events of the
      root's children `cs` have been read: each child is appended to the root
      at its start event, and every yield inside a child clears the root. */
  function RootAfter(root: Element, cs: seq<Element>, tags: set<string>): (r: Element)
    ensures r.tag == root.tag
    decreases |cs|
  {
    if cs == [] then root.(children := [])
    else
      var before := RootAfter(root, cs[..|cs| - 1], tags);
      var c := cs[|cs| - 1];
      if Yields(c, tags) then Cleared(before) else before.(children := before.children + [c])
  }

  /** What `retrieve_iterator` yields: every wanted descendant in end order, then
      the root if it is wanted, as the root object stands at its end event. */
  function Retrieved(root: Element, tags: set<string>): seq<Element> {
    Filter(ChildPostOrder(root.children), tags) +
      (if Wanted(root, tags) then [RootAfter(root, root.children, tags)] else [])
  }

  lemma {:induction false} ChildPostOrderAppend(a: seq<Element>, b: seq<Element>)
    ensures ChildPostOrder(a + b) == ChildPostOrder(a) + ChildPostOrder(b)
    decreases |a|
  {
    if a == [] {
      assert a + b == b;
    } else {
      assert (a + b)[1..] == a[1..] + b;
      ChildPostOrderAppend(a[1..], b);
    }
  }

  lemma {:induction false} FilterAppend(a: seq<Element>, b: seq<Element>, tags: set<string>)
    ensures Filter(a + b, tags) == Filter(a, tags) + Filter(b, tags)
    decreases |b|
  {
    if b == [] {
      assert a + b == a;
    } else {
      var init, e := b[..|b| - 1], b[|b| - 1];
      assert b == init + [e];
      assert a + b == (a + init) + [e];
      FilterAppend(a, init, tags);
      FilterSnoc(a + init, e, tags);
      FilterSnoc(init, e, tags);
    }
  }

  /** The children read so far, one more: its subtree's ends are filtered after the others'. */
  lemma ChildPostOrderSnoc(cs: seq<Element>, k: nat, tags: set<string>)
    requires k < |cs|
    ensures Filter(ChildPostOrder(cs[..k + 1]), tags) == Filter(ChildPostOrder(cs[..k]), tags) + Filter(PostOrder(cs[k]), tags)
  {
    assert cs[..k + 1] == cs[..k] + [cs[k]];
    ChildPostOrderAppend(cs[..k], [cs[k]]);
    assert ChildPostOrder([cs[k]]) == PostOrder(cs[k]) by {
      assert [cs[k]][1..] == [];
    }
    FilterAppend(ChildPostOrder(cs[..k]), PostOrder(cs[k]), tags);
  }

  /** Some child of `cs` has a subtree holding a yielded element. */
  predicate AnyYields(cs: seq<Element>, tags: set<string>) {
    exists j :: 0 <= j < |cs| && Yields(cs[j], tags)
  }

  /** Nothing is yielded among the children exactly when no child's subtree yields. */
  lemma {:induction false} AnyYieldsFilter(cs: seq<Element>, tags: set<string>)
    ensures Filter(ChildPostOrder(cs), tags) == [] <==> !AnyYields(cs, tags)
    decreases |cs|
  {
    if cs == [] {
      assert Filter(ChildPostOrder(cs), tags) == [];
    } else {
      var n := |cs| - 1;
      assert cs[..n + 1] == cs;
      ChildPostOrderSnoc(cs, n, tags);
      AnyYieldsFilter(cs[..n], tags);
      AnyYieldsSnoc(cs, tags);
    }
  }

  lemma AnyYieldsSnoc(cs: seq<Element>, tags: set<string>)
    requires cs != []
    ensures AnyYields(cs, tags) <==> AnyYields(cs[..|cs| - 1], tags) || Yields(cs[|cs| - 1], tags)
  {
    var init := cs[..|cs| - 1];
    if AnyYields(cs, tags) && !Yields(cs[|cs| - 1], tags) {
      var j :| 0 <= j < |cs| && Yields(cs[j], tags);
      assert init[j] == cs[j];
    }
    if AnyYields(init, tags) {
      var j :| 0 <= j < |init| && Yields(init[j], tags);
      assert cs[j] == init[j];
    }
  }

  /** The state `RootAfterSpec` describes. */
  ghost predicate RootShape(root: Element, cs: seq<Element>, tags: set<string>, r: Element) {
    (!AnyYields(cs, tags) ==> r == root.(children := cs)) &&
    (AnyYields(cs, tags) ==> exists k :: LastYielding(cs, k, tags) && r == Element(root.tag, None, map[], cs[k + 1..]))
  }

  /** The root as it stands after its children: whole (children included)
      when no child's subtree yielded; otherwise cleared, and holding the
      children that start after the last child whose subtree yielded. */
  lemma {:induction false} RootAfterSpec(root: Element, cs: seq<Element>, tags: set<string>)
    ensures RootShape(root, cs, tags, RootAfter(root, cs, tags))
    decreases |cs|
  {
    if cs != [] {
      var init := cs[..|cs| - 1];
      RootAfterSpec(root, init, tags);
      AnyYieldsSnoc(cs, tags);
      if Yields(cs[|cs| - 1], tags) {
        RootAfterYields(root, cs, tags);
      } else if !AnyYields(init, tags) {
        RootAfterWhole(root, cs, tags);
      } else {
        var k :| LastYielding(init, k, tags) && RootAfter(root, init, tags) == Element(root.tag, None, map[], init[k + 1..]);
        LastYieldingSnoc(cs, k, tags);
        RootAfterKeep(root, cs, tags, k);
      }
    }
  }

  /** A child that yields nothing is appended to the root. */
  lemma RootAfterAppends(root: Element, cs: seq<Element>, tags: set<string>)
    requires cs != [] && !Yields(cs[|cs| - 1], tags)
    ensures RootAfter(root, cs, tags).children == RootAfter(root, cs[..|cs| - 1], tags).children + [cs[|cs| - 1]]
    ensures RootAfter(root, cs, tags) == RootAfter(root, cs[..|cs| - 1], tags).(children := RootAfter(root, cs, tags).children)
  {
  }

  lemma RootAfterWhole(root: Element, cs: seq<Element>, tags: set<string>)
    requires cs != [] && !Yields(cs[|cs| - 1], tags)
    requires RootAfter(root, cs[..|cs| - 1], tags) == root.(children := cs[..|cs| - 1])
    ensures RootAfter(root, cs, tags) == root.(children := cs)
  {
    RootAfterAppends(root, cs, tags);
    assert cs[..|cs| - 1] + [cs[|cs| - 1]] == cs;
  }

  lemma RootAfterKeep(root: Element, cs: seq<Element>, tags: set<string>, k: int)
    requires cs != [] && !Yields(cs[|cs| - 1], tags) && 0 <= k < |cs| - 1
    requires RootAfter(root, cs[..|cs| - 1], tags) == Element(root.tag, None, map[], cs[..|cs| - 1][k + 1..])
    ensures RootAfter(root, cs, tags) == Element(root.tag, None, map[], cs[k + 1..])
  {
    RootAfterAppends(root, cs, tags);
    SliceSnoc(cs, k + 1);
  }

  lemma SliceSnoc<T>(s: seq<T>, i: nat)
    requires i < |s|
    ensures s[..|s| - 1][i..] + [s[|s| - 1]] == s[i..]
  {
  }

  lemma RootAfterYields(root: Element, cs: seq<Element>, tags: set<string>)
    requires cs != [] && Yields(cs[|cs| - 1], tags)
    ensures LastYielding(cs, |cs| - 1, tags)
    ensures RootAfter(root, cs, tags) == Element(root.tag, None, map[], cs[|cs|..])
  {
    assert cs[|cs|..] == [];
  }

  lemma LastYieldingSnoc(cs: seq<Element>, k: int, tags: set<string>)
    requires cs != [] && !Yields(cs[|cs| - 1], tags) && LastYielding(cs[..|cs| - 1], k, tags)
    ensures LastYielding(cs, k, tags)
  {
    var init := cs[..|cs| - 1];
    forall j | k < j < |cs| ensures !Yields(cs[j], tags) {
      if j < |cs| - 1 {
        assert cs[j] == init[j];
      }
    }
  }

  /** The root, when wanted, is yielded last: as it is when nothing came
      before it, and otherwise cleared of its text and attributes, with the
      children that start after the last child whose subtree yielded. */
  lemma RetrievedRoot(root: Element, tags: set<string>)
    requires Wanted(root, tags)
    ensures var out := Retrieved(root, tags);
      |out| >= 1 &&
      (Filter(ChildPostOrder(root.children), tags) == [] ==> out == [root]) &&
      (Filter(ChildPostOrder(root.children), tags) != [] ==>
        exists k :: LastYielding(root.children, k, tags) && out[|out| - 1] == Element(root.tag, None, map[], root.children[k + 1..]))
  {
    RootAfterSpec(root, root.children, tags);
    AnyYieldsFilter(root.children, tags);
  }

  /** A wanted root with two leaf children, the first wanted and the second not
      (R[A, B] with tags {R, A}): A is yielded, which clears the root; B starts
      afterwards and is appended to the cleared root, which is yielded holding
      only B, without its text and attributes. */
  lemma RetrievedClearedRoot(root: Element, a: Element, b: Element, tags: set<string>)
    requires root.children == [a, b] && a.children == [] && b.children == []
    requires root.tag in tags && a.tag in tags && b.tag !in tags
    ensures Retrieved(root, tags) == [a, Element(root.tag, None, map[], [b])]
  {
    ClearedRootParts(root, a, b, tags);
    var last := RootAfter(root, root.children, tags);
    assert Wanted(root, tags);
    assert Retrieved(root, tags) == [a] + [last];
    Pair(a, last);
  }

  /** The children's yields and the root left afterwards, for RetrievedClearedRoot. */
  lemma ClearedRootParts(root: Element, a: Element, b: Element, tags: set<string>)
    requires root.children == [a, b] && a.children == [] && b.children == []
    requires a.tag in tags && b.tag !in tags
    ensures Filter(ChildPostOrder(root.children), tags) == [a]
    ensures RootAfter(root, root.children, tags) == Element(root.tag, None, map[], [b])
  {
    assert Wanted(a, tags) && !Wanted(b, tags);
    LeafYields(a, tags);
    LeafYields(b, tags);
    TwoChildrenFilter(a, b, tags);
    TwoChildrenRoot(root, a, b, tags);
  }

  lemma Pair(x: Element, y: Element)
    ensures [x] + [y] == [x, y]
  {
  }

  lemma LeafYields(x: Element, tags: set<string>)
    requires x.children == []
    ensures Filter(PostOrder(x), tags) == if Wanted(x, tags) then [x] else []
  {
    assert PostOrder(x) == [] + [x];
    FilterSnoc([], x, tags);
  }

  lemma TwoChildrenFilter(a: Element, b: Element, tags: set<string>)
    ensures Filter(ChildPostOrder([a, b]), tags) == Filter(PostOrder(a), tags) + Filter(PostOrder(b), tags)
  {
    assert [a, b] == [a] + [b];
    ChildPostOrderAppend([a], [b]);
    OneChildPostOrder(a);
    OneChildPostOrder(b);
    FilterAppend(PostOrder(a), PostOrder(b), tags);
  }

  lemma OneChildPostOrder(x: Element)
    ensures ChildPostOrder([x]) == PostOrder(x)
  {
    assert [x][1..] == [];
    assert PostOrder(x) + [] == PostOrder(x);
  }

  /** Two children, of which only the first yields: the root ends up cleared,
      holding the second. */
  lemma TwoChildrenRoot(root: Element, a: Element, b: Element, tags: set<string>)
    requires Yields(a, tags) && !Yields(b, tags)
    ensures RootAfter(root, [a, b], tags) == Element(root.tag, None, map[], [b])
  {
    var r0 := RootAfter(root, [], tags);
    var r1 := RootAfter(root, [a], tags);
    assert [a][..0] == [];
    assert r1 == Cleared(r0);
    assert [a, b][..1] == [a];
    assert RootAfter(root, [a, b], tags) == r1.(children := r1.children + [b]);
  }

  lemma RetrievedSpec(root: Element, tags: set<string>)
    ensures forall i :: 0 <= i < |Retrieved(root, tags)| ==> Wanted(Retrieved(root, tags)[i], tags)
    ensures tags == {} ==> |Retrieved(root, tags)| == |PostOrder(root)|
    ensures Wanted(root, tags) <==> |Retrieved(root, tags)| == |Filter(ChildPostOrder(root.children), tags)| + 1
  {
    FilterWanted(ChildPostOrder(root.children), tags);
    if tags == {} {
      FilterAll(ChildPostOrder(root.children), tags);
    }
  }

  lemma {:induction false} FilterWanted(es: seq<Element>, tags: set<string>)
    ensures forall i :: 0 <= i < |Filter(es, tags)| ==> Wanted(Filter(es, tags)[i], tags)
    decreases |es|
  {
    if es != [] {
      FilterWanted(es[..|es| - 1], tags);
    }
  }

  lemma {:induction false} FilterAll(es: seq<Element>, tags: set<string>)
    requires tags == {}
    ensures Filter(es, tags) == es
    decreases |es|
  {
    if es != [] {
      FilterAll(es[..|es| - 1], tags);
    }
  }

  lemma FilterSnoc(es: seq<Element>, e: Element, tags: set<string>)
    ensures Filter(es + [e], tags) == Filter(es, tags) + (if Wanted(e, tags) then [e] else [])
  {
    assert (es + [e])[..|es|] == es;
  }

  /** The root after one more child of the root has been read. */
  lemma RootAfterStep(root: Element, cs: seq<Element>, k: nat, tags: set<string>)
    requires k < |cs|
    ensures RootAfter(root, cs[..k + 1], tags) ==
      if Yields(cs[k], tags) then Cleared(RootAfter(root, cs[..k], tags))
      else RootAfter(root, cs[..k], tags).(children := RootAfter(root, cs[..k], tags).children + [cs[k]])
  {
    assert cs[..k + 1][..k] == cs[..k];
  }

  /** One more event of a subtree: an end event of a wanted element adds that element. */
  lemma FilterEndsPrefix(events: seq<Event>, j: nat, tags: set<string>)
    requires j < |events|
    ensures Filter(Ends(events[..j + 1]), tags) == Filter(Ends(events[..j]), tags) +
      (if events[j].End? && Wanted(events[j].element, tags) then [events[j].element] else [])
  {
    var ev := events[j];
    assert events[..j + 1] == events[..j] + [ev];
    EndsSnoc(events[..j], ev);
    if ev.End? {
      FilterSnoc(Ends(events[..j]), ev.element, tags);
    } else {
      assert Ends(events[..j]) + [] == Ends(events[..j]);
    }
  }

  /** The events of one child `c` of the root, from its start to its end: the
      tree builder appends `c` to the root at its start event; each wanted
      element is yielded at its end event and the root is cleared after it. */
  method ReadChild(c: Element, tags: set<string>, out0: seq<Element>, root0: Element)
    returns (out: seq<Element>, rootNow: Element)
    ensures out == out0 + Filter(PostOrder(c), tags)
    ensures rootNow == if Yields(c, tags) then Cleared(root0) else root0.(children := root0.children + [c])
  {
    var events := Events(c);
    var appended := root0.(children := root0.children + [c]);
    // the start event of `c`
    out, rootNow := out0, appended;
    assert Ends(events[..1]) == [] by { EndsSnoc([], events[0]); assert events[..1] == [] + [events[0]]; }
    var j, yielded := 1, false;
    ghost var found: seq<Element> := [];
    while j < |events|
      invariant 1 <= j <= |events|
      invariant found == Filter(Ends(events[..j]), tags)
      invariant out == out0 + found
      invariant yielded <==> |found| > 0
      invariant rootNow == if yielded then Cleared(root0) else appended
    {
      var ev := events[j];
      FilterEndsPrefix(events, j, tags);
      if ev.End? && Wanted(ev.element, tags) {
        assert (out0 + found) + [ev.element] == out0 + (found + [ev.element]);
        out := out + [ev.element];
        found := found + [ev.element];
        rootNow := Cleared(rootNow);
        yielded := true;
      }
      j := j + 1;
    }
    assert events[..|events|] == events;
    EndsArePostOrder(c);
  }

  /** `DumpManager.retrieve_iterator` over the parsed dump `root`.  `next(iterator)`
      takes the root's start event; the events that follow are those of each child
      of the root in turn, then the root's end event, at which the root itself is
      yielded if it is wanted, as it then stands. */
  method RetrieveIterator(root: Element, tags: set<string>) returns (out: seq<Element>)
    ensures out == Retrieved(root, tags)
  {
    var rootNow := root.(children := []);
    out := [];
    var cs := root.children;
    var k := 0;
    while k < |cs|
      invariant 0 <= k <= |cs|
      invariant out == Filter(ChildPostOrder(cs[..k]), tags)
      invariant rootNow == RootAfter(root, cs[..k], tags)
    {
      ChildPostOrderSnoc(cs, k, tags);
      RootAfterStep(root, cs, k, tags);
      out, rootNow := ReadChild(cs[k], tags, out, rootNow);
      k := k + 1;
    }
    assert cs[..|cs|] == cs;
    if Wanted(root, tags) {
      out := out + [rootNow];
    }
  }

  /** The resource a daily dump name stands for: the live dump (if the table has
      the name) when no date is given, otherwise that day's archive file. */
  function DumpChoice(resourceName: string, date: Option<Date>): (r: Option<Resource>)
    requires date.Some? ==> Valid(date.value) && 1 <= date.value.year <= 9999
    ensures r.Some? ==> ValidResource(r.value)
    ensures date.Some? ==> r.Some? && r.value.policy == Static
    ensures date.None? ==> r == DumpResource(resourceName)
  {
    if date.None? then DumpResource(resourceName) else Some(ArchivedDump(date.value, resourceName))
  }

  /** The dump manager: the resource table and a resource manager over the file system. */
  class DumpManager {
    const resourceManager: ResourceManager

    constructor(files: set<string>, marker: MarkerFile)
      requires MarkerValid(marker)
      ensures resourceManager.Valid() && fresh(resourceManager)
      ensures resourceManager.files == files && resourceManager.marker == marker && resourceManager.downloads == []
    {
      resourceManager := new ResourceManager(files, marker);
    }

    /** `_named_daily_dump`: pick the live or the archived resource, update or verify
        it, then decode every element with the given tag from the dump file `dump`
        (the parsed content of the resolved path). */
    method NamedDailyDump<T>(resourceName: string, tagName: string, decode: Element -> Result<T>,
                             date: Option<Date>, location: Option<string>, update: bool,
                             now: DateTime, dump: Element) returns (r: Result<seq<T>>)
      requires resourceManager.Valid() && ValidTime(now)
      requires date.Some? ==> Valid(date.value) && 1 <= date.value.year <= 9999
      modifies resourceManager
      ensures resourceManager.Valid()
      ensures var res := DumpChoice(resourceName, date);
        (res.None? ==> r == Err(KeyError(resourceName)) && resourceManager.State() == old(resourceManager.State())) &&
        (res.Some? && !update ==>
          resourceManager.State() == AfterVerify(res.value, location, old(resourceManager.State())) &&
          r == Sequence(Retrieved(dump, {tagName}), decode))
      ensures var res := DumpChoice(resourceName, date);
        res.Some? && update ==>
          var after := AfterUpdate(res.value, location, old(resourceManager.State()), now);
          (after.Err? ==> r == Err(after.error) && resourceManager.State() == old(resourceManager.State())) &&
          (after.Ok? ==> resourceManager.State() == after.value && r == Sequence(Retrieved(dump, {tagName}), decode))
    {
      var res: Resource;
      if date.None? {
        var found := DumpResource(resourceName);
        if found.None? {
          return Err(KeyError(resourceName));
        }
        res := found.value;
      } else {
        res := ArchivedDump(date.value, resourceName);
      }
      if update {
        var u := resourceManager.Update(res, location, now);
        if u.Err? {
          return Err(u.error);
        }
      } else {
        resourceManager.Verify(res, location);
      }
      var elements := RetrieveIterator(dump, {tagName});
      r := Sequence(elements, decode);
    }

    /** `nations(date, location, update)`. */
    method Nations(date: Option<Date>, location: Option<string>, update: bool, now: DateTime, dump: Element)
      returns (r: Result<seq<NationStandard>>)
      requires resourceManager.Valid() && ValidTime(now)
      requires date.Some? ==> Valid(date.value) && 1 <= date.value.year <= 9999
      modifies resourceManager
      ensures resourceManager.Valid()
      ensures var res := DumpChoice("nations", date);
        res.Some? &&
        (!update ==> resourceManager.State() == AfterVerify(res.value, location, old(resourceManager.State())) &&
                     r == Sequence(Retrieved(dump, {"NATION"}), NationStandardFromXml)) &&
        (update ==> var after := AfterUpdate(res.value, location, old(resourceManager.State()), now);
          (after.Err? ==> r == Err(after.error) && resourceManager.State() == old(resourceManager.State())) &&
          (after.Ok? ==> resourceManager.State() == after.value &&
                         r == Sequence(Retrieved(dump, {"NATION"}), NationStandardFromXml)))
    {
      r := NamedDailyDump("nations", "NATION", NationStandardFromXml, date, location, update, now, dump);
    }

    /** `regions(date, location, update)`. */
    method Regions(date: Option<Date>, location: Option<string>, update: bool, now: DateTime, dump: Element)
      returns (r: Result<seq<RegionStandard>>)
      requires resourceManager.Valid() && ValidTime(now)
      requires date.Some? ==> Valid(date.value) && 1 <= date.value.year <= 9999
      modifies resourceManager
      ensures resourceManager.Valid()
      ensures var res := DumpChoice("regions", date);
        res.Some? &&
        (!update ==> resourceManager.State() == AfterVerify(res.value, location, old(resourceManager.State())) &&
                     r == Sequence(Retrieved(dump, {"REGION"}), RegionStandardFromXml)) &&
        (update ==> var after := AfterUpdate(res.value, location, old(resourceManager.State()), now);
          (after.Err? ==> r == Err(after.error) && resourceManager.State() == old(resourceManager.State())) &&
          (after.Ok? ==> resourceManager.State() == after.value &&
                         r == Sequence(Retrieved(dump, {"REGION"}), RegionStandardFromXml)))
    {
      r := NamedDailyDump("regions", "REGION", RegionStandardFromXml, date, location, update, now, dump);
    }

    /** `cards(season, location)`: the static card list of the season, downloaded only when missing. */
    method Cards(season: string, location: Option<string>, dump: Element) returns (r: Result<seq<CardStandard>>)
      requires resourceManager.Valid()
      modifies resourceManager
      ensures resourceManager.Valid()
      ensures var res := DumpResource("cardlist_S" + season);
        (res.None? ==> r == Err(KeyError("cardlist_S" + season)) && resourceManager.State() == old(resourceManager.State())) &&
        (res.Some? ==> resourceManager.State() == AfterVerify(res.value, location, old(resourceManager.State())) &&
                       r == Sequence(Retrieved(dump, {"CARD"}), CardStandardFromXml))
    {
      var key := "cardlist_S" + season;
      var found := DumpResource(key);
      if found.None? {
        return Err(KeyError(key));
      }
      resourceManager.Verify(found.value, location);
      var elements := RetrieveIterator(dump, {"CARD"});
      r := Sequence(elements, CardStandardFromXml);
    }
  }
}

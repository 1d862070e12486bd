/**
 * The status of a list of nations (status.py): whether each still exists,
 * its region, its WA status, and a label relative to the region
 * "10000 Islands".  The nation shards request is an oracle from the nation
 * name to the shard texts keyed by tag ("region", "unstatus"), or to the
 * API error it raised.
 */
module Status {
  import opened Outcomes
  import opened Strings
  import opened Core
  import opened Dicts

  /** `Status`: cleaned name, whether the nation has ceased to exist, region and WA status. */
  datatype NationStatus = NationStatus(name: string, cte: bool, region: Option<string>, wa: Option<string>)

  /** `requester.nation(n).shards("region", "wa")`. */
  type ShardsOracle = string -> Result<map<string, string>>

  /** `retrieve_status`: a ResourceError means the nation ceased to exist;
      any other error propagates; a response without one of the two shards
      raises KeyError. */
  function RetrieveStatus(shards: ShardsOracle, nation: string): (r: Result<NationStatus>)
    ensures r.Ok? ==> r.value.name == CleanFormat(nation)
    ensures r.Ok? ==> (r.value.cte <==> shards(nation) == Err(ResourceError))
    ensures r.Ok? && r.value.cte ==> r.value.region.None? && r.value.wa.None?
    ensures r.Ok? && !r.value.cte ==>
      (shards(nation).Ok? &&
       "region" in shards(nation).value && r.value.region == Some(shards(nation).value["region"]) &&
       "unstatus" in shards(nation).value && r.value.wa == Some(shards(nation).value["unstatus"]))
    ensures r.Err? <==>
      ((shards(nation).Err? && shards(nation).error != ResourceError) ||
       (shards(nation).Ok? && !("region" in shards(nation).value && "unstatus" in shards(nation).value)))
  {
    match shards(nation)
    case Err(ResourceError) => Ok(NationStatus(CleanFormat(nation), true, None, None))
    case Err(e) => Err(e)
    case Ok(info) =>
      if "region" !in info then Err(KeyError("region"))
      else if "unstatus" !in info then Err(KeyError("unstatus"))
      else Ok(NationStatus(CleanFormat(nation), false, Some(info["region"]), Some(info["unstatus"])))
  }

  const Islands := "10000 Islands"

  /** `xki_label`. */
  function XkiLabel(status: NationStatus): (r: string)
    ensures r == "CTE" <==> status.cte
    ensures !status.cte ==> r in {"Islander", "Friend", "WA Islander", "WA Friend"}
    ensures !status.cte ==> ((r == "Islander" || r == "WA Islander") <==> status.region == Some(Islands))
    ensures !status.cte ==> (StartsWith(r, "WA ") <==> status.wa.Some? && StartsWith(status.wa.value, "WA"))
  {
    LabelWords();
    if status.cte then "CTE"
    else
      var base := if status.region == Some(Islands) then "Islander" else "Friend";
      if status.wa.Some? && status.wa.value != "" && StartsWith(status.wa.value, "WA") then "WA " + base else base
  }

  lemma LabelWords()
    ensures "WA " + "Islander" == "WA Islander" && "WA " + "Friend" == "WA Friend"
    ensures !StartsWith("Islander", "WA ") && !StartsWith("Friend", "WA ") && !StartsWith("CTE", "WA ")
    ensures StartsWith("WA Islander", "WA ") && StartsWith("WA Friend", "WA ")
  {
    assert "Islander"[0] == 'I' && "Friend"[0] == 'F' && "CTE"[0] == 'C' && "WA "[0] == 'W';
    assert "WA Islander"[..3] == "WA " && "WA Friend"[..3] == "WA ";
  }

  /** Python's `str` of an optional string: "None" for None. */
  function OptionText(o: Option<string>): string {
    if o.Some? then o.value else "None"
  }

  /** Python's `str` of a bool. */
  function BoolText(b: bool): string {
    if b then "True" else "False"
  }

  /** The header row of the output. */
  const OutputHeader: seq<string> := ["link", "cte", "region", "wa", "label"]

  /** The output row of one nation. */
  function StatusRow(shards: ShardsOracle, nation: string): (r: Result<seq<string>>)
    ensures r.Ok? <==> RetrieveStatus(shards, nation).Ok?
    ensures r.Ok? ==> (|r.value| == 5 && r.value[0] == NationLink + CleanFormat(nation) &&
                       r.value[1] == BoolText(RetrieveStatus(shards, nation).value.cte) &&
                       r.value[4] == XkiLabel(RetrieveStatus(shards, nation).value))
    ensures r.Ok? ==> r.value[2] == OptionText(RetrieveStatus(shards, nation).value.region) &&
                      r.value[3] == OptionText(RetrieveStatus(shards, nation).value.wa)
  {
    var status :- RetrieveStatus(shards, nation);
    Ok([NationLink + CleanFormat(nation), BoolText(status.cte), OptionText(status.region),
        OptionText(status.wa), XkiLabel(status)])
  }

  /** The row of one data line: IndexError when the line has no nation column. */
  function LineRow(shards: ShardsOracle, row: seq<string>, index: nat): (r: Result<seq<string>>)
    ensures r.Ok? <==> index < |row| && StatusRow(shards, row[index]).Ok?
    ensures index >= |row| ==> r == Err(IndexError)
    ensures index < |row| ==> r == StatusRow(shards, row[index])
  {
    if index >= |row| then Err(IndexError) else StatusRow(shards, row[index])
  }

  /** Each data line's row, or its error. */
  function LineRows(shards: ShardsOracle, rows: seq<seq<string>>, index: nat): (r: seq<Result<seq<string>>>)
    ensures |r| == |rows| && forall i :: 0 <= i < |rows| ==> r[i] == LineRow(shards, rows[i], index)
  {
    seq(|rows|, i requires 0 <= i < |rows| => LineRow(shards, rows[i], index))
  }

  /** `report_status` as a value: the header, then one row per data line. */
  function ReportStatusSpec(shards: ShardsOracle, table: seq<seq<string>>): Result<seq<seq<string>>> {
    if table == [] then Err(StopIteration)
    else
      match Find(table[0], "nation")
      case None => Err(ValueError("nation"))
      case Some(index) =>
        var rows :- Collect(LineRows(shards, table[1..], index));
        Ok([OutputHeader] + rows)
  }

  /** What `report_status` promises: a header row and one 5-field row per
      data row, in input order, each linking the cleaned nation; an empty
      table, a header without "nation", a short row or a failing request
      raises instead. */
  lemma ReportStatusShape(shards: ShardsOracle, table: seq<seq<string>>, k: nat)
    requires 1 <= k < |table|
    ensures ReportStatusSpec(shards, table).Ok? ==>
      "nation" in table[0] && |ReportStatusSpec(shards, table).value| == |table| &&
      ReportStatusSpec(shards, table).value[0] == OutputHeader &&
      Find(table[0], "nation").value < |table[k]| &&
      |ReportStatusSpec(shards, table).value[k]| == 5 &&
      ReportStatusSpec(shards, table).value[k][0] == NationLink + CleanFormat(table[k][Find(table[0], "nation").value])
  {
    var r := ReportStatusSpec(shards, table);
    if r.Ok? {
      ReportStatusParts(shards, table);
      ReportStatusRow(shards, table, k);
      var index := Find(table[0], "nation").value;
      RowShape(shards, table[k], index, r.value[k]);
    }
  }

  /** Row `k` of a report is the row of data line `k`. */
  lemma ReportStatusRow(shards: ShardsOracle, table: seq<seq<string>>, k: nat)
    requires ReportStatusSpec(shards, table).Ok? && 1 <= k < |table|
    ensures Find(table[0], "nation").Some?
    ensures |ReportStatusSpec(shards, table).value| == |table|
    ensures LineRow(shards, table[k], Find(table[0], "nation").value) == Ok(ReportStatusSpec(shards, table).value[k])
  {
    ReportStatusParts(shards, table);
    var index := Find(table[0], "nation").value;
    var found := LineRows(shards, table[1..], index);
    HeadedAt(OutputHeader, found, ReportStatusSpec(shards, table).value, k);
    assert table[1..][k - 1] == table[k];
  }

  /** A report is the header and the collected rows of the data lines. */
  lemma ReportStatusParts(shards: ShardsOracle, table: seq<seq<string>>)
    requires ReportStatusSpec(shards, table).Ok?
    ensures table != [] && Find(table[0], "nation").Some? && "nation" in table[0]
    ensures var rows := Collect(LineRows(shards, table[1..], Find(table[0], "nation").value));
      rows.Ok? && ReportStatusSpec(shards, table).value == [OutputHeader] + rows.value
  {
  }

  /** A data line that gives a row has the nation column, and its row has
      five fields, the first linking the cleaned nation. */
  lemma RowShape(shards: ShardsOracle, row: seq<string>, index: nat, v: seq<string>)
    requires LineRow(shards, row, index) == Ok(v)
    ensures index < |row| && |v| == 5 && v[0] == NationLink + CleanFormat(row[index])
  {
  }

  lemma ReportStatusErrors(shards: ShardsOracle, table: seq<seq<string>>)
    ensures table == [] ==> ReportStatusSpec(shards, table) == Err(StopIteration)
    ensures table != [] && "nation" !in table[0] ==> ReportStatusSpec(shards, table) == Err(ValueError("nation"))
  {
  }

  /** The loop of `report_status`: one row per data line, stopping at the first failure. */
  method StatusLines(shards: ShardsOracle, data: seq<seq<string>>, index: nat) returns (r: Result<seq<seq<string>>>)
    ensures r == Collect(LineRows(shards, data, index))
  {
    ghost var rows := LineRows(shards, data, index);
    var output := [];
    var i := 0;
    while i < |data|
      invariant 0 <= i <= |data|
      invariant Collect(rows[..i]) == Ok(output)
    {
      var row := data[i];
      assert rows[i] == LineRow(shards, row, index);
      CollectNext(rows, i);
      if index >= |row| {
        return Err(IndexError);
      }
      var next := StatusRow(shards, row[index]);
      if next.Err? {
        return Err(next.error);
      }
      output := output + [next.value];
      i := i + 1;
    }
    assert rows[..|data|] == rows;
    return Ok(output);
  }

  /** `report_status`: reads the header, then the rows of the data lines. */
  method ReportStatus(shards: ShardsOracle, table: seq<seq<string>>) returns (r: Result<seq<seq<string>>>)
    ensures r == ReportStatusSpec(shards, table)
  {
    if table == [] {
      return Err(StopIteration);
    }
    var header := table[0];
    var found := Find(header, "nation");
    if found.None? {
      return Err(ValueError("nation"));
    }
    var rows := StatusLines(shards, table[1..], found.value);
    if rows.Err? {
      return Err(rows.error);
    }
    return Ok([OutputHeader] + rows.value);
  }
}

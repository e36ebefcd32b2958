/** `main` and `slim_output`: the merge of the catalog with the status summaries and the
    projection to the columns the map reads. */
module Output {
  import opened Wrappers
  import opened Records
  import opened Xml
  import opened Soap
  import opened Catalog
  import opened Status

  /** A data frame: its column names in order and its rows. */
  datatype Table = Table(columns: seq<string>, rows: seq<Row>)

  /** Every cell of every row lies in one of the frame's columns. */
  predicate WellFormed(t: Table) {
    forall i, c :: 0 <= i < |t.rows| && c in t.rows[i] ==> c in t.columns
  }

  const LOADED_AT: string := "_loaded_at_utc"

  /** The columns the left merge adds from `agg`. */
  const STATUS_COLS: seq<string> := ["StationNetworkStatus", "LastPortStatus", "faultReason", "StatusTimestamp"]

  const FINAL_COLS: seq<string> := [
    "stationName", "Address", "City", "State", "postalCode",
    "Lat", "Long",
    "Charger type", "Charger type (legend)",
    "StationNetworkStatus", "LastPortStatus", "faultReason",
    "StatusTimestamp", LOADED_AT]

  // ---------------------------------------------------------------- the left merge

  /** The summary of the station a catalog row describes, if `agg` holds one. */
  function Lookup(agg: map<string, Summary>, r: Row): Option<Summary> {
    match Get(r, "stationID")
    case Str(s) => if s in agg then Some(agg[s]) else None
    case _ => None
  }

  /** The status cells of one merged row; `format` stands for `strftime`, and a station
      without a summary gets missing cells. */
  function StatusCells(sum: Option<Summary>, format: int -> string): Row {
    match sum
    case None => map c | c in STATUS_COLS :: Null
    case Some(s) =>
      map["StationNetworkStatus" := Str(s.networkStatus),
          "LastPortStatus" := Str(s.lastPortStatus),
          "faultReason" := Str(s.faultReason),
          "StatusTimestamp" := if s.at.Some? then Str(format(s.at.value)) else Null]
  }

  /** `stations_df.merge(status_df, on=["stationID"], how="left")`; `agg` has one summary
      per station, so every station row appears once, in its place. */
  function Merge(t: Table, agg: map<string, Summary>, format: int -> string): Table {
    Table(t.columns + STATUS_COLS,
          seq(|t.rows|, i requires 0 <= i < |t.rows| => t.rows[i] + StatusCells(Lookup(agg, t.rows[i]), format)))
  }

  /** The merge keeps every station row and its cells; a station without a summary gets
      missing status cells and one with a summary gets that summary's. */
  lemma MergeSpec(t: Table, agg: map<string, Summary>, format: int -> string)
    ensures var m := Merge(t, agg, format);
      && m.columns == t.columns + STATUS_COLS
      && (WellFormed(t) ==> WellFormed(m))
      && |m.rows| == |t.rows|
      && (forall i, c :: 0 <= i < |t.rows| && c !in STATUS_COLS ==> Get(m.rows[i], c) == Get(t.rows[i], c))
      && (forall i, c :: 0 <= i < |t.rows| && c in STATUS_COLS && Lookup(agg, t.rows[i]).None? ==>
            Get(m.rows[i], c) == Null)
      && forall i :: 0 <= i < |t.rows| && Lookup(agg, t.rows[i]).Some? ==>
           var s := Lookup(agg, t.rows[i]).value;
           && Get(m.rows[i], "StationNetworkStatus") == Str(s.networkStatus)
           && Get(m.rows[i], "LastPortStatus") == Str(s.lastPortStatus)
           && Get(m.rows[i], "faultReason") == Str(s.faultReason)
           && Get(m.rows[i], "StatusTimestamp") == (if s.at.Some? then Str(format(s.at.value)) else Null)
  {
    var m := Merge(t, agg, format);
    forall i | 0 <= i < |t.rows| {
      MergeRow(t.rows[i], Lookup(agg, t.rows[i]), format);
    }
  }

  /** One merged row: the station's cells, then the status cells of its summary. */
  lemma MergeRow(r: Row, sum: Option<Summary>, format: int -> string)
    ensures forall c :: c in r + StatusCells(sum, format) <==> c in r || c in STATUS_COLS
    ensures forall c :: c !in STATUS_COLS ==> Get(r + StatusCells(sum, format), c) == Get(r, c)
    ensures sum.None? ==> forall c :: c in STATUS_COLS ==> Get(r + StatusCells(sum, format), c) == Null
    ensures sum.Some? ==>
      var m := r + StatusCells(sum, format);
      && Get(m, "StationNetworkStatus") == Str(sum.value.networkStatus)
      && Get(m, "LastPortStatus") == Str(sum.value.lastPortStatus)
      && Get(m, "faultReason") == Str(sum.value.faultReason)
      && Get(m, "StatusTimestamp") == (if sum.value.at.Some? then Str(format(sum.value.at.value)) else Null)
  {
  }

  // ---------------------------------------------------------------- slim_output

  /** `out[c] = v`: sets one column of every row, adding it at the end when it is new. */
  function SetColumn(t: Table, c: string, v: Value): Table {
    Table(if c in t.columns then t.columns else t.columns + [c],
          seq(|t.rows|, i requires 0 <= i < |t.rows| => t.rows[i][c := v]))
  }

  /** The `for c in FINAL_COLS` loop over the first columns of `cols`: each column not yet
      in the frame is added, missing everywhere. */
  function WithColumns(t: Table, cols: seq<string>): Table {
    if cols == [] then t
    else
      var u := WithColumns(t, cols[..|cols| - 1]);
      var c := cols[|cols| - 1];
      if c in u.columns then u else SetColumn(u, c, Null)
  }

  /** `pd.notnull(out["Lat"]) & pd.notnull(out["Long"])` */
  predicate Located(r: Row) {
    Get(r, "Lat") != Null && Get(r, "Long") != Null
  }

  function KeepLocated(rows: seq<Row>): seq<Row> {
    if rows == [] then []
    else KeepLocated(rows[..|rows| - 1]) + (if Located(rows[|rows| - 1]) then [rows[|rows| - 1]] else [])
  }

  /** `out[cols]` */
  function Select(t: Table, cols: seq<string>): Table {
    Table(cols, seq(|t.rows|, i requires 0 <= i < |t.rows| => map c | c in cols :: Get(t.rows[i], c)))
  }

  /** What `slim_output` returns for `merged` when the clock reads `stamp`. */
  function Slim(merged: Table, stamp: string): Table {
    var full := WithColumns(SetColumn(merged, LOADED_AT, Str(stamp)), FINAL_COLS);
    var kept := if "Lat" in full.columns && "Long" in full.columns then Table(full.columns, KeepLocated(full.rows)) else full;
    Select(kept, FINAL_COLS)
  }

  method SlimOutput(merged: Table, loadedAt: string) returns (out: Table)
    ensures out == Slim(merged, loadedAt)
  {
    out := SetColumn(merged, LOADED_AT, Str(loadedAt));
    ghost var stamped := out;
    for i := 0 to |FINAL_COLS|
      invariant out == WithColumns(stamped, FINAL_COLS[..i])
    {
      assert FINAL_COLS[..i + 1][..i] == FINAL_COLS[..i];
      if FINAL_COLS[i] !in out.columns {
        out := SetColumn(out, FINAL_COLS[i], Null);
      }
    }
    assert FINAL_COLS[..|FINAL_COLS|] == FINAL_COLS;
    if "Lat" in out.columns && "Long" in out.columns {
      out := Table(out.columns, KeepLocated(out.rows));
    }
    out := Select(out, FINAL_COLS);
  }

  /** Adding columns keeps the rows, keeps every cell of a column the frame already had,
      and leaves every requested column in the frame. */
  lemma {:induction false} WithColumnsSpec(t: Table, cols: seq<string>)
    ensures var u := WithColumns(t, cols);
      && |u.rows| == |t.rows|
      && (forall c :: c in t.columns ==> c in u.columns)
      && (forall c :: c in cols ==> c in u.columns)
      && (forall i, c :: 0 <= i < |t.rows| && c in t.columns ==> Get(u.rows[i], c) == Get(t.rows[i], c))
      && (WellFormed(t) ==> WellFormed(u) && forall i, c :: 0 <= i < |t.rows| ==> Get(u.rows[i], c) == Get(t.rows[i], c))
  {
    if cols != [] {
      var front := cols[..|cols| - 1];
      WithColumnsSpec(t, front);
      forall c | c in cols
        ensures c in WithColumns(t, cols).columns
      {
        if c != cols[|cols| - 1] {
          var j :| 0 <= j < |cols| && cols[j] == c;
          assert front[j] == c;
        }
      }
    }
  }

  /** The rows kept are exactly the located ones, in their original order. */
  lemma {:induction false} KeepLocatedSpec(rows: seq<Row>)
    ensures forall r :: r in KeepLocated(rows) <==> r in rows && Located(r)
    ensures forall i :: 0 <= i < |KeepLocated(rows)| ==> Located(KeepLocated(rows)[i])
  {
    if rows != [] {
      var front := rows[..|rows| - 1];
      KeepLocatedSpec(front);
      assert rows == front + [rows[|rows| - 1]];
      assert forall i :: 0 <= i < |KeepLocated(front)| ==> KeepLocated(rows)[i] == KeepLocated(front)[i];
    }
  }

  lemma {:induction false} KeepLocatedAppend(a: seq<Row>, b: seq<Row>)
    ensures KeepLocated(a + b) == KeepLocated(a) + KeepLocated(b)
    decreases |b|
  {
    if b == [] {
      assert a + b == a;
    } else {
      var front := b[..|b| - 1];
      assert (a + b)[..|a + b| - 1] == a + front;
      assert (a + b)[|a + b| - 1] == b[|b| - 1];
      KeepLocatedAppend(a, front);
    }
  }

  /** Two sequences of rows that agree on every column but the load stamp keep the same
      rows. */
  lemma {:induction false} KeepLocatedAgree(xs: seq<Row>, ys: seq<Row>)
    requires |xs| == |ys|
    requires forall i, c :: 0 <= i < |xs| && c != LOADED_AT ==> Get(xs[i], c) == Get(ys[i], c)
    ensures |KeepLocated(xs)| == |KeepLocated(ys)|
    ensures forall i, c :: 0 <= i < |KeepLocated(xs)| && c != LOADED_AT ==>
      Get(KeepLocated(xs)[i], c) == Get(KeepLocated(ys)[i], c)
  {
    if xs != [] {
      var n := |xs| - 1;
      KeepLocatedAgree(xs[..n], ys[..n]);
      assert Get(xs[n], "Lat") == Get(ys[n], "Lat") && Get(xs[n], "Long") == Get(ys[n], "Long");
    }
  }

  /** The rows `slim_output` filters: the stamped frame with every final column added. */
  function Full(merged: Table, stamp: string): Table {
    WithColumns(SetColumn(merged, LOADED_AT, Str(stamp)), FINAL_COLS)
  }

  lemma SlimIsSelect(merged: Table, stamp: string)
    ensures Slim(merged, stamp) == Select(Table(Full(merged, stamp).columns, KeepLocated(Full(merged, stamp).rows)), FINAL_COLS)
  {
    WithColumnsSpec(SetColumn(merged, LOADED_AT, Str(stamp)), FINAL_COLS);
    assert "Lat" in FINAL_COLS && "Long" in FINAL_COLS;
  }

  /** The output has exactly the columns `FINAL_COLS`, in order, in every row. */
  lemma SlimColumns(merged: Table, stamp: string)
    ensures var out := Slim(merged, stamp);
      && out.columns == FINAL_COLS
      && forall i :: 0 <= i < |out.rows| ==> out.rows[i].Keys == set c | c in FINAL_COLS
  {
  }

  /** Every output row has both coordinates. */
  lemma SlimLocated(merged: Table, stamp: string)
    ensures var out := Slim(merged, stamp);
      forall i :: 0 <= i < |out.rows| ==> out.rows[i]["Lat"] != Null && out.rows[i]["Long"] != Null
  {
    SlimIsSelect(merged, stamp);
    KeepLocatedSpec(Full(merged, stamp).rows);
  }

  /** All output rows carry the same load stamp. */
  lemma SlimStamp(merged: Table, stamp: string)
    ensures var out := Slim(merged, stamp);
      forall i :: 0 <= i < |out.rows| ==> out.rows[i][LOADED_AT] == Str(stamp)
  {
    var stamped := SetColumn(merged, LOADED_AT, Str(stamp));
    WithColumnsSpec(stamped, FINAL_COLS);
    SlimIsSelect(merged, stamp);
    var full := Full(merged, stamp);
    KeepLocatedSpec(full.rows);
    var kept := KeepLocated(full.rows);
    forall i | 0 <= i < |kept|
      ensures Get(kept[i], LOADED_AT) == Str(stamp)
    {
      assert kept[i] in full.rows;
      var j :| 0 <= j < |full.rows| && full.rows[j] == kept[i];
      assert LOADED_AT in stamped.columns;
      assert Get(full.rows[j], LOADED_AT) == Get(stamped.rows[j], LOADED_AT) == Str(stamp);
    }
  }

  /** On a well-formed frame the output rows are the located input rows, in their input
      order, with their values in every output column but the load stamp. */
  lemma SlimRows(merged: Table, stamp: string)
    requires WellFormed(merged)
    ensures var out := Slim(merged, stamp);
      var kept := KeepLocated(merged.rows);
      && |out.rows| == |kept|
      && forall i, c :: 0 <= i < |kept| && c in FINAL_COLS && c != LOADED_AT ==> out.rows[i][c] == Get(kept[i], c)
  {
    var stamped := SetColumn(merged, LOADED_AT, Str(stamp));
    assert WellFormed(stamped) by {
      forall i, c | 0 <= i < |stamped.rows| && c in stamped.rows[i]
        ensures c in stamped.columns
      {
        if c != LOADED_AT {
          assert c in merged.rows[i];
        }
      }
    }
    WithColumnsSpec(stamped, FINAL_COLS);
    var full := WithColumns(stamped, FINAL_COLS);
    assert "Lat" in FINAL_COLS && "Long" in FINAL_COLS;
    KeepLocatedAgree(full.rows, merged.rows);
  }

  // ---------------------------------------------------------------- main

  /** `stations_df["stationID"].dropna().unique()`: the ids present, first occurrences kept. */
  function StationIds(rows: seq<Row>): seq<string> {
    if rows == [] then []
    else
      var ids := StationIds(rows[..|rows| - 1]);
      match RowId(rows[|rows| - 1])
      case Null => ids
      case Str(s) => if s in ids then ids else ids + [s]
      case Num(s) => if s in ids then ids else ids + [s]
  }

  /** The text of a present id cell. */
  function IdCell(v: Value): Option<string> {
    match v
    case Null => None
    case Str(s) => Some(s)
    case Num(s) => Some(s)
  }

  /** No station is asked twice, and every station with an id is asked. */
  lemma {:induction false} StationIdsSpec(rows: seq<Row>)
    ensures Distinct(StationIds(rows))
    ensures forall s :: s in StationIds(rows) <==> exists i :: 0 <= i < |rows| && IdCell(RowId(rows[i])) == Some(s)
  {
    if rows != [] {
      var front := rows[..|rows| - 1];
      StationIdsSpec(front);
      assert forall i :: 0 <= i < |front| ==> front[i] == rows[i];
    }
  }

  /** How the run ends: an exception escapes, the run aborts before writing, or both files
      are written. */
  datatype Outcome = Crashed(error: Error) | Aborted | Written(cache: Table, slim: Table)

  /** `merged`: the left merge, made only when the status frame is not empty. */
  function Merged(cache: Table, agg: map<string, Summary>, format: int -> string): Table {
    if |agg| == 0 then cache else Merge(cache, agg, format)
  }

  /** What `main` does once the catalog fetch has ended with `stations`. */
  function Finish(stations: Result<seq<Row>, Error>, statusNet: string -> nat -> Attempt,
                  parseXml: Bytes -> Option<Element>, parseTs: string -> Option<int>,
                  format: int -> string, loadedAt: string): Outcome {
    match stations
    case Failure(e) => Crashed(e)
    case Success(cat) =>
      if cat == [] then Aborted
      else
        var cache := Table(STATION_COLS, cat);
        var agg := Reduce(Gathered(statusNet, parseXml, StationIds(cat)), parseTs);
        Written(cache, Slim(Merged(cache, agg, format), loadedAt))
  }

  method Run(stationNet: nat -> nat -> Attempt, statusNet: string -> nat -> Attempt,
             parseXml: Bytes -> Option<Element>, parseTs: string -> Option<int>,
             format: int -> string, loadedAt: string)
    returns (o: Outcome)
    requires exists k :: Stops(PagesOf(stationNet, parseXml), k)
    ensures exists k: nat :: (FirstStop(PagesOf(stationNet, parseXml), k)
      && o == Finish(StationsAt(PagesOf(stationNet, parseXml), k), statusNet, parseXml, parseTs, format, loadedAt))
  {
    var stations := FetchStationsFullPerStation(stationNet, parseXml);
    ghost var k: nat :| FirstStop(PagesOf(stationNet, parseXml), k) && stations == StationsAt(PagesOf(stationNet, parseXml), k);
    if stations.Failure? {
      return Crashed(stations.error);
    }
    var stationsDf := stations.value;
    if stationsDf == [] {
      return Aborted;
    }
    var cache := Table(STATION_COLS, stationsDf);
    var ids := StationIds(stationsDf);
    var statusDf := FetchAllStatuses(ids, statusNet, parseXml, parseTs);
    var merged := if |statusDf| == 0 then cache else Merge(cache, statusDf, format);
    var finalDf := SlimOutput(merged, loadedAt);
    o := Written(cache, finalDf);
  }

  /** The run aborts, writing nothing, exactly when the pages before the first stopping
      request give an empty frame. */
  lemma AbortExactlyOnEmptyCatalog(pages: nat -> Result<seq<Row>, Error>, statusNet: string -> nat -> Attempt,
                                  parseXml: Bytes -> Option<Element>, parseTs: string -> Option<int>,
                                  format: int -> string, loadedAt: string, k: nat)
    ensures var o := Finish(StationsAt(pages, k), statusNet, parseXml, parseTs, format, loadedAt);
      && (o.Crashed? <==> pages(k * PAGE_SIZE).Failure?)
      && (o.Aborted? <==> pages(k * PAGE_SIZE).Success? && EmptyFrame(Collected(pages, k)))
      && (o.Written? ==> o.cache.rows != [] && o.cache.columns == STATION_COLS)
  {
    CatalogEmpty(Collected(pages, k));
  }

  /** The merged frame of a catalog keeps every station row with its cells; a station
      without a summary has missing status cells, whether or not the merge was made. */
  lemma MergedSpec(cat: seq<Row>, agg: map<string, Summary>, format: int -> string)
    requires forall i :: 0 <= i < |cat| ==> Shaped(cat[i])
    ensures var m := Merged(Table(STATION_COLS, cat), agg, format);
      && WellFormed(m)
      && |m.rows| == |cat|
      && (forall i, c :: 0 <= i < |cat| && c in STATION_COLS ==> Get(m.rows[i], c) == Get(cat[i], c))
      && (forall i, c :: 0 <= i < |cat| && c in STATUS_COLS && Lookup(agg, cat[i]).None? ==> Get(m.rows[i], c) == Null)
  {
    var t := Table(STATION_COLS, cat);
    assert forall c :: c in STATUS_COLS ==> c !in STATION_COLS;
    assert WellFormed(t);
    if |agg| == 0 {
      forall i, c | 0 <= i < |cat| && c in STATUS_COLS
        ensures Get(cat[i], c) == Null
      {
        assert c !in cat[i];
      }
    } else {
      var m := Merge(t, agg, format);
      forall i | 0 <= i < |cat| {
        MergeRow(cat[i], Lookup(agg, cat[i]), format);
      }
      assert forall i :: 0 <= i < |cat| ==> m.rows[i] == cat[i] + StatusCells(Lookup(agg, cat[i]), format);
    }
  }

  /** The rows of the map file written for a catalog are the located rows of the merged
      catalog, in catalog order, with the merged values in every column but the stamp. */
  lemma CatalogOutput(cat: seq<Row>, agg: map<string, Summary>, format: int -> string, loadedAt: string)
    requires forall i :: 0 <= i < |cat| ==> Shaped(cat[i])
    ensures var merged := Merged(Table(STATION_COLS, cat), agg, format);
      var out := Slim(merged, loadedAt);
      var kept := KeepLocated(merged.rows);
      && |out.rows| == |kept|
      && (forall i, c :: 0 <= i < |kept| && c in FINAL_COLS && c != LOADED_AT ==> out.rows[i][c] == Get(kept[i], c))
  {
    MergedSpec(cat, agg, format);
    SlimRows(Merged(Table(STATION_COLS, cat), agg, format), loadedAt);
  }

  /** A written run wrote a non-empty catalog of the pages before the first stopping
      request; its map file is that catalog's output. */
  lemma WrittenSpec(pages: nat -> Result<seq<Row>, Error>, statusNet: string -> nat -> Attempt,
                    parseXml: Bytes -> Option<Element>, parseTs: string -> Option<int>,
                    format: int -> string, loadedAt: string, k: nat)
    ensures var o := Finish(StationsAt(pages, k), statusNet, parseXml, parseTs, format, loadedAt);
      o.Written? ==>
        && o.cache == Table(STATION_COLS, CatalogOf(Collected(pages, k)))
        && o.cache.rows != []
        && UniqueIds(o.cache.rows)
        && forall i :: 0 <= i < |o.cache.rows| ==> Shaped(o.cache.rows[i])
  {
    CatalogRows(Collected(pages, k));
  }
}

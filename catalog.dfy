/** `fetch_stations_full_per_station`: the paged `getStations` loop and the reduction of
    its port rows to one catalog row per station. */
module Catalog {
  import opened Wrappers
  import opened Text
  import opened Xml
  import opened Records
  import opened Soap
  import opened Parse
  import opened Classify

  const PAGE_SIZE: nat := 500

  // ---------------------------------------------------------------- pagination

  /** The rows of the page that starts at record `start`: `net(start)` says how the POSTs of
      that request turn out and `parseXml` stands for `ET.fromstring`. */
  function Page(net: nat -> nat -> Attempt, parseXml: Bytes -> Option<Element>, start: nat): Result<seq<Row>, Error> {
    match Posted(net(start))
    case Failure(e) => Failure(e)
    case Success(b) =>
      match parseXml(b)
      case None => Failure(Malformed)
      case Some(root) => Success(StationReply(root))
  }

  /** The service as the loop sees it: for each start offset, the page that request returns. */
  function PagesOf(net: nat -> nat -> Attempt, parseXml: Bytes -> Option<Element>): nat -> Result<seq<Row>, Error> {
    (start: nat) => Page(net, parseXml, start)
  }

  /** The loop ends at the `k`-th request: it raised, or its page is empty. */
  predicate Stops(pages: nat -> Result<seq<Row>, Error>, k: nat) {
    var p := pages(k * PAGE_SIZE);
    p.Failure? || p.value == []
  }

  /** The `k`-th request is the first at which the loop ends. */
  predicate FirstStop(pages: nat -> Result<seq<Row>, Error>, k: nat) {
    Stops(pages, k) && forall j :: 0 <= j < k ==> !Stops(pages, j)
  }

  /** `all_rows` after the first `n` pages. */
  function Collected(pages: nat -> Result<seq<Row>, Error>, n: nat): seq<Row> {
    if n == 0 then []
    else
      var p := pages((n - 1) * PAGE_SIZE);
      Collected(pages, n - 1) + (if p.Success? then p.value else [])
  }

  /** One request of the loop: `post_soap` followed by `parse_stations`. */
  method FetchPage(net: nat -> nat -> Attempt, parseXml: Bytes -> Option<Element>, start: nat)
    returns (r: Result<seq<Row>, Error>)
    ensures r == PagesOf(net, parseXml)(start)
  {
    var reply, _ := PostSoap(net(start));
    if reply.Failure? {
      return Failure(reply.error);
    }
    var root := parseXml(reply.value);
    if root.None? {
      return Failure(Malformed);
    }
    var rows := ParseStations(root.value);
    r := Success(rows);
  }

  /** The `while True` loop: requests pages at `start` = 0, `PAGE_SIZE`, 2 * `PAGE_SIZE`, ...
      until one raises or comes back empty. The loop ends only when some page stops it. */
  method FetchPages(pages: nat -> Result<seq<Row>, Error>)
    returns (r: Result<seq<Row>, Error>, starts: seq<nat>)
    requires exists k :: Stops(pages, k)
    ensures |starts| > 0 && FirstStop(pages, |starts| - 1)
    ensures forall j :: 0 <= j < |starts| ==> starts[j] == j * PAGE_SIZE
    ensures var last := pages((|starts| - 1) * PAGE_SIZE);
      && (r.Failure? <==> last.Failure?)
      && (r.Failure? ==> r.error == last.error)
      && (r.Success? ==> r.value == Collected(pages, |starts| - 1))
  {
    ghost var bound: nat :| Stops(pages, bound);
    var allRows: seq<Row> := [];
    var start: nat := 0;
    starts := [];
    while true
      invariant start == |starts| * PAGE_SIZE
      invariant forall j :: 0 <= j < |starts| ==> starts[j] == j * PAGE_SIZE
      invariant forall j :: 0 <= j < |starts| ==> !Stops(pages, j)
      invariant |starts| <= bound
      invariant allRows == Collected(pages, |starts|)
      decreases bound - |starts|
    {
      ghost var k := |starts|;
      starts := starts + [start];
      var page := pages(start);
      if page.Failure? {
        return Failure(page.error), starts;
      }
      if page.value == [] {
        break;
      }
      NextPage(pages, k, page.value);
      allRows := allRows + page.value;
      start := start + PAGE_SIZE;
    }
    r := Success(allRows);
  }

  /** A non-empty page does not stop the loop, and its rows are appended to what came before. */
  lemma NextPage(pages: nat -> Result<seq<Row>, Error>, k: nat, rows: seq<Row>)
    requires pages(k * PAGE_SIZE) == Success(rows) && rows != []
    ensures !Stops(pages, k)
    ensures Collected(pages, k + 1) == Collected(pages, k) + rows
    ensures (k + 1) * PAGE_SIZE == k * PAGE_SIZE + PAGE_SIZE
  {
  }

  /** At most one request is the first to stop the loop. */
  lemma FirstStopUnique(pages: nat -> Result<seq<Row>, Error>, k1: nat, k2: nat)
    requires FirstStop(pages, k1) && FirstStop(pages, k2)
    ensures k1 == k2
  {
  }

  /** Two full pages, a page of 137 rows and an empty page: the loop makes four requests
      and collects the three pages in order. */
  lemma FourPages(pages: nat -> Result<seq<Row>, Error>, p0: seq<Row>, p1: seq<Row>, p2: seq<Row>)
    requires |p0| == 500 && |p1| == 500 && |p2| == 137
    requires pages(0) == Success(p0)
    requires pages(500) == Success(p1)
    requires pages(1000) == Success(p2)
    requires pages(1500) == Success([])
    ensures FirstStop(pages, 3)
    ensures Collected(pages, 3) == p0 + p1 + p2
    ensures |Collected(pages, 3)| == 1137
  {
    assert !Stops(pages, 0) && !Stops(pages, 1) && !Stops(pages, 2);
    assert Collected(pages, 1) == p0;
    assert Collected(pages, 2) == p0 + p1;
  }

  // ---------------------------------------------------------------- station ids

  /** `df_ports["stationID"].astype(str)`, or "" for every row when no row has the column;
      a row without the key reads as NaN. */
  function IdOf(r: Row, hasColumn: bool): string {
    if !hasColumn then ""
    else match Get(r, "stationID")
      case Null => "nan"
      case Str(s) => s
      case Num(raw) => raw
  }

  predicate HasIdColumn(rows: seq<Row>) {
    exists i :: 0 <= i < |rows| && "stationID" in rows[i]
  }

  predicate StrictlySorted(ids: seq<string>) {
    forall i, j :: 0 <= i < j < |ids| ==> Less(ids[i], ids[j])
  }

  /** Adds `x` to a sorted sequence of distinct ids. */
  function InsertId(ids: seq<string>, x: string): seq<string> {
    if ids == [] then [x]
    else if ids[|ids| - 1] == x then ids
    else if Less(ids[|ids| - 1], x) then ids + [x]
    else InsertId(ids[..|ids| - 1], x) + [ids[|ids| - 1]]
  }

  lemma {:induction false} InsertIdSpec(ids: seq<string>, x: string)
    requires StrictlySorted(ids)
    ensures StrictlySorted(InsertId(ids, x))
    ensures forall y :: y in InsertId(ids, x) <==> y in ids || y == x
  {
    if ids == [] {
    } else if ids[|ids| - 1] == x {
    } else if Less(ids[|ids| - 1], x) {
      var r := ids + [x];
      forall i, j | 0 <= i < j < |r|
        ensures Less(r[i], r[j])
      {
        if j == |ids| && i < |ids| - 1 {
          LessTransitive(ids[i], ids[|ids| - 1], x);
        }
      }
    } else {
      var front, last := ids[..|ids| - 1], ids[|ids| - 1];
      InsertIdSpec(front, x);
      LessTotal(last, x);
      var u := InsertId(front, x);
      forall i | 0 <= i < |u|
        ensures Less(u[i], last)
      {
        if u[i] != x {
          assert u[i] in front;
          var j :| 0 <= j < |front| && front[j] == u[i];
          assert ids[j] == front[j];
        }
      }
      var r := u + [last];
      forall i, j | 0 <= i < j < |r|
        ensures Less(r[i], r[j])
      {
        if j < |u| {
          assert r[i] == u[i] && r[j] == u[j];
        }
      }
      assert ids == front + [last];
    }
  }

  /** The group keys of `groupby("stationID")`, in pandas' sorted order. */
  function Keys(rows: seq<Row>, hasColumn: bool): seq<string> {
    if rows == [] then [] else InsertId(Keys(rows[..|rows| - 1], hasColumn), IdOf(rows[|rows| - 1], hasColumn))
  }

  /** The keys are sorted and distinct, and they are exactly the ids of the rows. */
  lemma {:induction false} KeysSpec(rows: seq<Row>, hasColumn: bool)
    ensures StrictlySorted(Keys(rows, hasColumn))
    ensures forall id :: id in Keys(rows, hasColumn) <==> exists i :: 0 <= i < |rows| && IdOf(rows[i], hasColumn) == id
  {
    if rows != [] {
      var front := rows[..|rows| - 1];
      KeysSpec(front, hasColumn);
      InsertIdSpec(Keys(front, hasColumn), IdOf(rows[|rows| - 1], hasColumn));
      assert forall i :: 0 <= i < |front| ==> front[i] == rows[i];
    }
  }

  // ---------------------------------------------------------------- first_non_null

  /** `pd.notnull(v) and v != ""` */
  predicate Present(v: Value) {
    v != Null && v != Str("")
  }

  /** `first_non_null(series)` */
  function FirstNonNull(vs: seq<Value>): Value {
    if vs == [] then Null
    else if Present(vs[0]) then vs[0]
    else FirstNonNull(vs[1..])
  }

  /** The first value in order that is neither missing nor "", or missing if there is none. */
  lemma {:induction false} FirstNonNullSpec(vs: seq<Value>)
    ensures FirstNonNull(vs) == Null <==> forall i :: 0 <= i < |vs| ==> !Present(vs[i])
    ensures FirstNonNull(vs) != Null ==>
      exists i :: 0 <= i < |vs| && vs[i] == FirstNonNull(vs) && forall j :: 0 <= j < i ==> !Present(vs[j])
  {
    if vs != [] && !Present(vs[0]) {
      FirstNonNullSpec(vs[1..]);
      assert forall i :: 1 <= i < |vs| ==> vs[i] == vs[1..][i - 1];
      if FirstNonNull(vs) != Null {
        var i :| 0 <= i < |vs[1..]| && vs[1..][i] == FirstNonNull(vs)
          && forall j :: 0 <= j < i ==> !Present(vs[1..][j]);
        assert vs[i + 1] == FirstNonNull(vs);
      }
    }
  }

  // ---------------------------------------------------------------- aggregation

  /** The columns aggregated with `first_non_null`. */
  const AGG_COLS: seq<string> := ["stationName", "stationModel", "Address", "City", "State", "postalCode",
                                  "sgName", "sgname", "Lat", "Long"]

  /** The columns of the catalog frame, in order. */
  const STATION_COLS: seq<string> := ["stationID", "stationName", "stationModel", "Address", "City", "State",
                                      "postalCode", "sgName", "sgname", "Lat", "Long",
                                      "Charger type", "Charger type (legend)"]

  /** A row with exactly the catalog's columns. */
  ghost predicate Shaped(r: Row) {
    forall c :: c in r <==> c in STATION_COLS
  }

  /** The rows of a group, in their original order. */
  function Group(rows: seq<Row>, hasColumn: bool, id: string): seq<Row> {
    if rows == [] then []
    else
      Group(rows[..|rows| - 1], hasColumn, id)
        + (if IdOf(rows[|rows| - 1], hasColumn) == id then [rows[|rows| - 1]] else [])
  }

  /** One column of a group, as the series `first_non_null` receives. */
  function Column(g: seq<Row>, c: string): seq<Value> {
    seq(|g|, i requires 0 <= i < |g| => Get(g[i], c))
  }

  /** `(model or "")`: a missing model reads as the empty text. */
  function ModelText(v: Value): Option<string> {
    match v
    case Null => None
    case Str(s) => Some(s)
    case Num(raw) => Some(raw)
  }

  /** `astype(str)`, as the group name column gets it: a missing value becomes "None". */
  function AsText(v: Value): string {
    match v
    case Null => "None"
    case Str(s) => s
    case Num(raw) => raw
  }

  /** The aggregated fields of a group. */
  function Fields(g: seq<Row>): Row {
    map c | c in AGG_COLS :: FirstNonNull(Column(g, c))
  }

  /** The legend cell: missing when `legend` gives `None`. */
  function LegendCell(kind: string, sg: string): Value {
    var shown := Legend(kind, sg);
    if shown.Some? then Str(shown.value) else Null
  }

  /** The catalog row of station `id`: its aggregated fields, its charger type and its
      legend label. */
  function StationRow(id: string, g: seq<Row>): Row {
    var fields := Fields(g);
    var kind := Classify.Classify(ModelText(fields["stationModel"]));
    fields["stationID" := Str(id)]
          ["Charger type" := Str(kind)]
          ["Charger type (legend)" := LegendCell(kind, AsText(fields["sgName"]))]
  }

  /** The legend cell is missing exactly for gateways. */
  lemma LegendCellSpec(model: Option<string>, sg: string)
    ensures LegendCell(Classify.Classify(model), sg) == Null <==> Classify.Classify(model) == GATEWAY
  {
    var kind := Classify.Classify(model);
    LegendSpec(kind, sg);
    ClassifyLabels(model);
    if kind == GATEWAY {
      assert kind[..7] == "Gateway";
    } else {
      assert kind[0] != 'G';
    }
  }

  /** `grouped`: one row per station id, in sorted id order. */
  function Aggregate(rows: seq<Row>): seq<Row> {
    var hasColumn := HasIdColumn(rows);
    var ids := Keys(rows, hasColumn);
    seq(|ids|, i requires 0 <= i < |ids| => StationRow(ids[i], Group(rows, hasColumn, ids[i])))
  }

  /** The catalog has exactly one row per distinct station id, in sorted id order; each row
      is built from that station's rows alone. */
  lemma AggregateSpec(rows: seq<Row>)
    ensures var hasColumn := HasIdColumn(rows);
      var ids := Keys(rows, hasColumn);
      && StrictlySorted(ids)
      && (forall id :: id in ids <==> exists i :: 0 <= i < |rows| && IdOf(rows[i], hasColumn) == id)
      && |Aggregate(rows)| == |ids|
      && forall i :: 0 <= i < |ids| ==>
           Aggregate(rows)[i] == StationRow(ids[i], Group(rows, hasColumn, ids[i]))
  {
    KeysSpec(rows, HasIdColumn(rows));
  }

  lemma StationRowShaped(id: string, g: seq<Row>)
    ensures Shaped(StationRow(id, g))
  {
    assert forall c :: c in STATION_COLS <==> c in AGG_COLS || c == "stationID" || c == "Charger type" || c == "Charger type (legend)";
  }

  lemma StationRowCells(id: string, g: seq<Row>)
    ensures var r := StationRow(id, g);
      && "stationID" in r && r["stationID"] == Str(id)
      && forall c :: c in AGG_COLS ==> c in r && r[c] == FirstNonNull(Column(g, c))
  {
    assert forall c :: c in AGG_COLS ==> c != "stationID" && c != "Charger type" && c != "Charger type (legend)";
  }

  lemma StationRowKind(id: string, g: seq<Row>)
    ensures var r := StationRow(id, g);
      var kind := Classify.Classify(ModelText(FirstNonNull(Column(g, "stationModel"))));
      && "Charger type" in r && r["Charger type"] == Str(kind)
      && "Charger type (legend)" in r
      && (r["Charger type (legend)"] == Null <==> kind == GATEWAY)
  {
    var fields := Fields(g);
    assert "stationModel" in AGG_COLS && "sgName" in AGG_COLS;
    LegendCellSpec(ModelText(fields["stationModel"]), AsText(fields["sgName"]));
  }

  /** A catalog row has exactly the catalog's columns: the station id, the first present
      value of every aggregated field, the charger type of the first present model, and a
      legend label that is missing exactly for gateways. */
  lemma StationRowSpec(id: string, g: seq<Row>)
    ensures var r := StationRow(id, g);
      && Shaped(r)
      && r["stationID"] == Str(id)
      && (forall c :: c in AGG_COLS ==> r[c] == FirstNonNull(Column(g, c)))
      && r["Charger type"] == Str(Classify.Classify(ModelText(FirstNonNull(Column(g, "stationModel")))))
      && (r["Charger type (legend)"] == Null <==> r["Charger type"] == Str(GATEWAY))
  {
    StationRowShaped(id, g);
    StationRowCells(id, g);
    StationRowKind(id, g);
  }

  lemma {:induction false} GroupMembers(rows: seq<Row>, hasColumn: bool, id: string)
    ensures forall r :: r in Group(rows, hasColumn, id) <==> r in rows && IdOf(r, hasColumn) == id
  {
    if rows != [] {
      var front, last := rows[..|rows| - 1], rows[|rows| - 1];
      GroupMembers(front, hasColumn, id);
      assert Group(rows, hasColumn, id)
        == Group(front, hasColumn, id) + (if IdOf(last, hasColumn) == id then [last] else []);
      assert rows == front + [last];
    }
  }

  /** The rows of a group are those of the station; GroupFirst below states their order. */
  lemma GroupSpec(rows: seq<Row>, hasColumn: bool, id: string)
    ensures forall r :: r in Group(rows, hasColumn, id) <==> r in rows && IdOf(r, hasColumn) == id
    ensures Group(rows, hasColumn, id) != [] <==> exists i :: 0 <= i < |rows| && IdOf(rows[i], hasColumn) == id
  {
    GroupMembers(rows, hasColumn, id);
    var g := Group(rows, hasColumn, id);
    if g != [] {
      assert g[0] in g;
      var i :| 0 <= i < |rows| && rows[i] == g[0];
    }
    if exists i :: 0 <= i < |rows| && IdOf(rows[i], hasColumn) == id {
      var i :| 0 <= i < |rows| && IdOf(rows[i], hasColumn) == id;
      assert rows[i] in g;
    }
  }

  /** Row `r` belongs to station `id` and has a present value in column `c`. */
  predicate Fills(r: Row, hasColumn: bool, id: string, c: string) {
    IdOf(r, hasColumn) == id && Present(Get(r, c))
  }

  lemma ColumnSnoc(g: seq<Row>, r: Row, c: string)
    ensures Column(g + [r], c) == Column(g, c) + [Get(r, c)]
  {
  }

  /** The first present value ahead of `b` is that of `a`, when `a` has one. */
  lemma {:induction false} FirstNonNullAppend(a: seq<Value>, b: seq<Value>)
    ensures FirstNonNull(a + b) == if FirstNonNull(a) != Null then FirstNonNull(a) else FirstNonNull(b)
  {
    if a != [] {
      assert (a + b)[1..] == a[1..] + b;
      FirstNonNullAppend(a[1..], b);
    } else {
      assert a + b == b;
    }
  }

  /** One step of `GroupFirst` below: the group's first value after one more row. */
  lemma GroupFirstStep(rows: seq<Row>, hasColumn: bool, id: string, c: string)
    requires rows != []
    ensures var front, last := rows[..|rows| - 1], rows[|rows| - 1];
      var before := FirstNonNull(Column(Group(front, hasColumn, id), c));
      FirstNonNull(Column(Group(rows, hasColumn, id), c))
        == if before != Null then before else if Fills(last, hasColumn, id, c) then Get(last, c) else Null
  {
    var front, last := rows[..|rows| - 1], rows[|rows| - 1];
    var g := Group(front, hasColumn, id);
    if IdOf(last, hasColumn) == id {
      assert Group(rows, hasColumn, id) == g + [last];
      ColumnSnoc(g, last, c);
      FirstNonNullAppend(Column(g, c), [Get(last, c)]);
      assert [Get(last, c)][1..] == [];
      assert FirstNonNull([Get(last, c)]) == if Present(Get(last, c)) then Get(last, c) else Null;
    } else {
      assert Group(rows, hasColumn, id) == g;
    }
  }

  /** A station's aggregated field is the value of the first of its rows, in the order of
      the input, whose field is present; it is missing when none of its rows has one. */
  lemma {:induction false} GroupFirst(rows: seq<Row>, hasColumn: bool, id: string, c: string)
    ensures var v := FirstNonNull(Column(Group(rows, hasColumn, id), c));
      && (v == Null <==> forall i :: 0 <= i < |rows| ==> !Fills(rows[i], hasColumn, id, c))
      && (v != Null ==> exists i :: (0 <= i < |rows| && Fills(rows[i], hasColumn, id, c) && v == Get(rows[i], c)
            && forall j :: 0 <= j < i ==> !Fills(rows[j], hasColumn, id, c)))
  {
    if rows != [] {
      var front, last := rows[..|rows| - 1], rows[|rows| - 1];
      GroupFirst(front, hasColumn, id, c);
      GroupFirstStep(rows, hasColumn, id, c);
      assert forall i :: 0 <= i < |front| ==> front[i] == rows[i];
      var before := FirstNonNull(Column(Group(front, hasColumn, id), c));
      if before != Null {
        var i :| 0 <= i < |front| && Fills(front[i], hasColumn, id, c) && before == Get(front[i], c)
          && forall j :: 0 <= j < i ==> !Fills(front[j], hasColumn, id, c);
        assert rows[i] == front[i];
      } else if Fills(last, hasColumn, id, c) {
        assert rows[|rows| - 1] == last;
      }
    }
  }

  /** Without a `stationID` column every row belongs to the one station "". */
  lemma NoIdColumn(rows: seq<Row>)
    requires rows != [] && !HasIdColumn(rows)
    ensures Keys(rows, false) == [""]
  {
    KeysSpec(rows, false);
    var ids := Keys(rows, false);
    assert IdOf(rows[0], false) == "";
    assert "" in ids;
  }

  // ---------------------------------------------------------------- drop_duplicates

  function RowId(r: Row): Value {
    Get(r, "stationID")
  }

  /** The `stationID` column. */
  function Ids(rows: seq<Row>): (ids: seq<Value>)
    ensures |ids| == |rows|
  {
    seq(|rows|, i requires 0 <= i < |rows| => RowId(rows[i]))
  }

  /** `drop_duplicates(subset=["stationID"], keep="first")` */
  function DropDuplicates(rows: seq<Row>): seq<Row> {
    if rows == [] then []
    else
      var front := rows[..|rows| - 1];
      var last := rows[|rows| - 1];
      DropDuplicates(front) + (if RowId(last) in Ids(front) then [] else [last])
  }

  predicate UniqueIds(rows: seq<Row>) {
    forall i, j :: 0 <= i < j < |rows| ==> RowId(rows[i]) != RowId(rows[j])
  }

  lemma IdsSnoc(rows: seq<Row>, r: Row)
    ensures Ids(rows + [r]) == Ids(rows) + [RowId(r)]
  {
  }

  /** Only rows of the input survive. */
  lemma {:induction false} DropDuplicatesKeeps(rows: seq<Row>)
    ensures forall r :: r in DropDuplicates(rows) ==> r in rows
  {
    if rows != [] {
      var front := rows[..|rows| - 1];
      var last := rows[|rows| - 1];
      DropDuplicatesKeeps(front);
      assert rows == front + [last];
      assert DropDuplicates(rows) == DropDuplicates(front) + (if RowId(last) in Ids(front) then [] else [last]);
    }
  }

  /** An id occurs after dropping duplicates exactly when it occurs before. */
  lemma {:induction false} DropDuplicatesIds(rows: seq<Row>)
    ensures forall v :: v in Ids(DropDuplicates(rows)) <==> v in Ids(rows)
  {
    if rows != [] {
      var front, last := rows[..|rows| - 1], rows[|rows| - 1];
      var d := DropDuplicates(front);
      DropDuplicatesIds(front);
      assert rows == front + [last];
      IdsSnoc(front, last);
      if RowId(last) in Ids(front) {
        assert DropDuplicates(rows) == d;
      } else {
        assert DropDuplicates(rows) == d + [last];
        IdsSnoc(d, last);
      }
    }
  }

  /** No two surviving rows share an id. */
  lemma {:induction false} DropDuplicatesUniqueIds(rows: seq<Row>)
    ensures UniqueIds(DropDuplicates(rows))
  {
    if rows != [] {
      var front, last := rows[..|rows| - 1], rows[|rows| - 1];
      DropDuplicatesUniqueIds(front);
      if RowId(last) !in Ids(front) {
        var d := DropDuplicates(front);
        DropDuplicatesIds(front);
        forall a | 0 <= a < |d|
          ensures RowId(d[a]) != RowId(last)
        {
          assert Ids(d)[a] == RowId(d[a]);
        }
      }
    }
  }

  /** `keep="first"`: a row survives exactly when no earlier row has its id. */
  lemma {:induction false} DropDuplicatesFirst(rows: seq<Row>)
    ensures forall i :: 0 <= i < |rows| && RowId(rows[i]) !in Ids(rows[..i]) ==> rows[i] in DropDuplicates(rows)
    ensures forall r :: r in DropDuplicates(rows) ==>
      exists i :: 0 <= i < |rows| && r == rows[i] && RowId(rows[i]) !in Ids(rows[..i])
  {
    if rows != [] {
      var front, last := rows[..|rows| - 1], rows[|rows| - 1];
      DropDuplicatesFirst(front);
      var d := DropDuplicates(front);
      assert DropDuplicates(rows) == d + (if RowId(last) in Ids(front) then [] else [last]);
      forall i | 0 <= i < |front|
        ensures rows[i] == front[i] && rows[..i] == front[..i]
      {
      }
      assert rows[..|rows| - 1] == front;
    }
  }

  /** The survivors keep the order of the input: dropping duplicates from a prefix gives a
      prefix of the result. */
  lemma {:induction false} DropDuplicatesPrefix(rows: seq<Row>, n: nat)
    requires n <= |rows|
    ensures DropDuplicates(rows[..n]) <= DropDuplicates(rows)
    decreases |rows|
  {
    if n < |rows| {
      var front := rows[..|rows| - 1];
      DropDuplicatesPrefix(front, n);
      assert front[..n] == rows[..n];
    } else {
      assert rows[..n] == rows;
    }
  }

  /** The result has distinct ids, holds only input rows, and still has every input id. */
  lemma DropDuplicatesSpec(rows: seq<Row>)
    ensures UniqueIds(DropDuplicates(rows))
    ensures forall r :: r in DropDuplicates(rows) ==> r in rows
    ensures forall v :: v in Ids(DropDuplicates(rows)) <==> v in Ids(rows)
  {
    DropDuplicatesUniqueIds(rows);
    DropDuplicatesKeeps(rows);
    DropDuplicatesIds(rows);
  }

  /** On rows whose ids are already distinct, dropping duplicates changes nothing. */
  lemma {:induction false} DropDuplicatesUnique(rows: seq<Row>)
    requires UniqueIds(rows)
    ensures DropDuplicates(rows) == rows
  {
    if rows != [] {
      var front, last := rows[..|rows| - 1], rows[|rows| - 1];
      DropDuplicatesUnique(front);
      forall a | 0 <= a < |front|
        ensures Ids(front)[a] != RowId(last)
      {
        assert front[a] == rows[a];
      }
      assert rows == front + [last];
    }
  }

  /** The aggregated catalog's ids are distinct, so `drop_duplicates` keeps every row. */
  lemma AggregateUnique(rows: seq<Row>)
    ensures UniqueIds(Aggregate(rows))
    ensures DropDuplicates(Aggregate(rows)) == Aggregate(rows)
  {
    AggregateSpec(rows);
    var hasColumn := HasIdColumn(rows);
    var ids := Keys(rows, hasColumn);
    forall i, j | 0 <= i < j < |Aggregate(rows)|
      ensures RowId(Aggregate(rows)[i]) != RowId(Aggregate(rows)[j])
    {
      StationRowSpec(ids[i], Group(rows, hasColumn, ids[i]));
      StationRowSpec(ids[j], Group(rows, hasColumn, ids[j]));
      LessIrreflexive(ids[i]);
    }
    DropDuplicatesUnique(Aggregate(rows));
  }

  // ---------------------------------------------------------------- the catalog

  /** `pd.DataFrame(all_rows).empty`: no rows, or rows that give the frame no column. */
  predicate EmptyFrame(rows: seq<Row>) {
    forall i :: 0 <= i < |rows| ==> rows[i] == map[]
  }

  /** The catalog `fetch_stations_full_per_station` returns for the collected port rows;
      an empty frame is returned as it is, which is the empty catalog. */
  function CatalogOf(rows: seq<Row>): seq<Row> {
    if EmptyFrame(rows) then [] else DropDuplicates(Aggregate(rows))
  }

  /** The catalog is empty exactly when the collected rows give an empty frame. */
  lemma CatalogEmpty(rows: seq<Row>)
    ensures CatalogOf(rows) == [] <==> EmptyFrame(rows)
  {
    if !EmptyFrame(rows) {
      var i :| 0 <= i < |rows| && rows[i] != map[];
      AggregateSpec(rows);
      AggregateUnique(rows);
      var hasColumn := HasIdColumn(rows);
      assert IdOf(rows[i], hasColumn) in Keys(rows, hasColumn);
    }
  }

  lemma AggregateRows(rows: seq<Row>)
    ensures forall i :: 0 <= i < |Aggregate(rows)| ==> Shaped(Aggregate(rows)[i]) && RowId(Aggregate(rows)[i]).Str?
  {
    var hasColumn := HasIdColumn(rows);
    var ids := Keys(rows, hasColumn);
    forall i | 0 <= i < |ids|
      ensures Shaped(Aggregate(rows)[i]) && RowId(Aggregate(rows)[i]).Str?
    {
      StationRowSpec(ids[i], Group(rows, hasColumn, ids[i]));
    }
  }

  /** Every catalog row has exactly the catalog's columns and a text station id, and no
      two rows share an id. */
  lemma CatalogRows(rows: seq<Row>)
    ensures UniqueIds(CatalogOf(rows))
    ensures forall i :: 0 <= i < |CatalogOf(rows)| ==> Shaped(CatalogOf(rows)[i]) && RowId(CatalogOf(rows)[i]).Str?
  {
    if !EmptyFrame(rows) {
      AggregateUnique(rows);
      AggregateRows(rows);
    }
  }

  /** What `fetch_stations_full_per_station` returns when the loop ends at request `k`: the
      exception of that request, or the catalog of the pages before it. */
  function StationsAt(pages: nat -> Result<seq<Row>, Error>, k: nat): Result<seq<Row>, Error> {
    var last := pages(k * PAGE_SIZE);
    if last.Failure? then Failure(last.error) else Success(CatalogOf(Collected(pages, k)))
  }

  method FetchStationsFullPerStation(net: nat -> nat -> Attempt, parseXml: Bytes -> Option<Element>)
    returns (r: Result<seq<Row>, Error>)
    requires exists k :: Stops(PagesOf(net, parseXml), k)
    ensures exists k: nat :: FirstStop(PagesOf(net, parseXml), k) && r == StationsAt(PagesOf(net, parseXml), k)
  {
    var fetched, starts := FetchPages(PagesOf(net, parseXml));
    if fetched.Failure? {
      return Failure(fetched.error);
    }
    var allRows := fetched.value;
    if EmptyFrame(allRows) {
      return Success([]);
    }
    var grouped := Aggregate(allRows);
    grouped := DropDuplicates(grouped);
    r := Success(grouped);
  }
}

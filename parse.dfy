/** `parse_stations` and `parse_status`: flattening a SOAP reply's element tree into one
    record per port. */
module Parse {
  import opened Wrappers
  import opened Text
  import opened Xml
  import opened Records
  import opened Seqs

  const STATION_DATA: string := "stationData"
  const PORT: string := "Port"

  /** `(e.text or "").strip()` */
  function TextOf(e: Element): string {
    Strip(e.text.GetOr(""))
  }

  /** `(e.findtext("./tag") or "").strip()` */
  function FieldText(e: Element, tag: string): string {
    Strip(ChildText(e, tag).GetOr(""))
  }

  /** `float(x) if x else None`, with the float left opaque. */
  function Coordinate(x: Option<string>): (v: Value)
    ensures v == Null <==> x.None? || x.value == ""
  {
    if x.Some? && x.value != "" then Num(x.value) else Null
  }

  // ---------------------------------------------------------------- parse_stations

  /** The `rec` dict built from a station's non-`Port` children, one after the other. */
  function Rec(cs: seq<Element>): Row {
    if cs == [] then map[]
    else
      var c := cs[|cs| - 1];
      var rec := Rec(cs[..|cs| - 1]);
      if StripTag(c.tag) == PORT then rec else rec[StripTag(c.tag) := Str(TextOf(c))]
  }

  /** `[p for p in st if strip_tag(p.tag) == "Port"]` */
  function Ports(cs: seq<Element>): (ps: seq<Element>)
    ensures forall p :: p in ps <==> p in cs && StripTag(p.tag) == PORT
  {
    if cs == [] then []
    else Ports(cs[..|cs| - 1]) + (if StripTag(cs[|cs| - 1].tag) == PORT then [cs[|cs| - 1]] else [])
  }

  /** The row of one port: a copy of `rec` whose `portNumber`, `Lat` and `Long` come from
      the port and whose other entries are those of `rec`. */
  function PortRow(rec: Row, p: Element): Row {
    rec["portNumber" := Str(FieldText(p, "portNumber"))]
       ["Lat" := Coordinate(GrandchildText(p, "Geo", "Lat"))]
       ["Long" := Coordinate(GrandchildText(p, "Geo", "Long"))]
  }

  /** A port row is the station's record with that port's number and coordinates added;
      every other key keeps the station's value. */
  lemma PortRowSpec(rec: Row, p: Element)
    ensures var row := PortRow(rec, p);
      && row.Keys == rec.Keys + {"portNumber", "Lat", "Long"}
      && row["portNumber"] == Str(FieldText(p, "portNumber"))
      && row["Lat"] == Coordinate(GrandchildText(p, "Geo", "Lat"))
      && row["Long"] == Coordinate(GrandchildText(p, "Geo", "Long"))
      && forall k :: k in rec && k != "portNumber" && k != "Lat" && k != "Long" ==> row[k] == rec[k]
  {
  }

  function PortRows(rec: Row, ps: seq<Element>): seq<Row> {
    if ps == [] then [] else PortRows(rec, ps[..|ps| - 1]) + [PortRow(rec, ps[|ps| - 1])]
  }

  /** The rows one `stationData` element contributes. */
  function StationRows(st: Element): seq<Row> {
    var rec := Rec(st.children);
    var ports := Ports(st.children);
    if ports == [] then [rec] else PortRows(rec, ports)
  }

  /** The rows one node of `body.iter()` contributes: none unless it is a `stationData`. */
  function NodeRows(node: Element): seq<Row> {
    if StripTag(node.tag) == STATION_DATA then StationRows(node) else []
  }

  /** The rows of the `stationData` elements among `nodes`, in order. */
  function RowsOf(nodes: seq<Element>): seq<Row> {
    FlatMap(NodeRows, nodes)
  }

  /** What `parse_stations` returns for a reply whose tree is `root`. */
  function StationReply(root: Element): seq<Row> {
    match FindBody(root)
    case None => []
    case Some(body) => RowsOf(PreOrder(body))
  }

  method ParseStations(root: Element) returns (rows: seq<Row>)
    ensures rows == StationReply(root)
  {
    var body := FindBody(root);
    if body.None? {
      return [];
    }
    rows := StationsIn(PreOrder(body.value));
  }

  /** The loop of `parse_stations` over `body.iter()`. */
  method StationsIn(nodes: seq<Element>) returns (rows: seq<Row>)
    ensures rows == RowsOf(nodes)
  {
    rows := [];
    for i := 0 to |nodes|
      invariant rows == RowsOf(nodes[..i])
    {
      assert nodes[..i + 1][..i] == nodes[..i];
      if StripTag(nodes[i].tag) == STATION_DATA {
        var stationRows := ParseStationData(nodes[i]);
        rows := rows + stationRows;
      }
    }
    assert nodes[..|nodes|] == nodes;
  }

  /** The body of the `stationData` branch of `parse_stations`. */
  method ParseStationData(st: Element) returns (rows: seq<Row>)
    ensures rows == StationRows(st)
  {
    var rec := BuildRec(st.children);
    var ports := CollectPorts(st.children);
    if ports != [] {
      rows := CopiesPerPort(rec, ports);
    } else {
      rows := [rec];
    }
  }

  /** `ports = [p for p in st if strip_tag(p.tag) == "Port"]` */
  method CollectPorts(cs: seq<Element>) returns (ports: seq<Element>)
    ensures ports == Ports(cs)
  {
    ports := [];
    for j := 0 to |cs|
      invariant ports == Ports(cs[..j])
    {
      assert cs[..j + 1][..j] == cs[..j];
      if StripTag(cs[j].tag) == PORT {
        ports := ports + [cs[j]];
      }
    }
    assert cs[..|cs|] == cs;
  }

  /** The loop `for p in ports: ... rows.append(row)`. */
  method CopiesPerPort(rec: Row, ports: seq<Element>) returns (rows: seq<Row>)
    ensures rows == PortRows(rec, ports)
  {
    rows := [];
    for k := 0 to |ports|
      invariant rows == PortRows(rec, ports[..k])
    {
      assert ports[..k + 1][..k] == ports[..k];
      var row := CopyWithPort(rec, ports[k]);
      rows := rows + [row];
    }
    assert ports[..|ports|] == ports;
  }

  method BuildRec(cs: seq<Element>) returns (rec: Row)
    ensures rec == Rec(cs)
  {
    rec := map[];
    for j := 0 to |cs|
      invariant rec == Rec(cs[..j])
    {
      assert cs[..j + 1][..j] == cs[..j];
      var name := StripTag(cs[j].tag);
      if name == PORT {
        continue;
      }
      rec := rec[name := Str(Strip(cs[j].text.GetOr("")))];
    }
    assert cs[..|cs|] == cs;
  }

  /** `row = rec.copy()` followed by the three assignments for port `p`. */
  method CopyWithPort(rec: Row, p: Element) returns (row: Row)
    ensures row == PortRow(rec, p)
  {
    row := rec;
    row := row["portNumber" := Str(FieldText(p, "portNumber"))];
    var lat := GrandchildText(p, "Geo", "Lat");
    var lon := GrandchildText(p, "Geo", "Long");
    row := row["Lat" := if lat.Some? && lat.value != "" then Num(lat.value) else Null];
    row := row["Long" := if lon.Some? && lon.value != "" then Num(lon.value) else Null];
  }

  // ---------------------------------------------------------------- parse_status

  /** The record of one `Port` child of a station whose id and network status are given. */
  function PortStatus(sid: string, net: string, p: Element): StatusRecord {
    StatusRecord(sid, FieldText(p, "portNumber"), FieldText(p, "Status"),
                 FieldText(p, "faultReason"), FieldText(p, "TimeStamp"), net)
  }

  function PortStatuses(sid: string, net: string, ps: seq<Element>): seq<StatusRecord> {
    if ps == [] then [] else PortStatuses(sid, net, ps[..|ps| - 1]) + [PortStatus(sid, net, ps[|ps| - 1])]
  }

  /** The records one `stationData` element of a status reply contributes: one per child
      whose raw tag is `Port` (`st.findall("./Port")`). */
  function StationStatuses(st: Element): seq<StatusRecord> {
    PortStatuses(FieldText(st, "stationID"), FieldText(st, "networkStatus"), ChildrenTagged(st, PORT))
  }

  function NodeStatuses(node: Element): seq<StatusRecord> {
    if StripTag(node.tag) == STATION_DATA then StationStatuses(node) else []
  }

  function StatusesOf(nodes: seq<Element>): seq<StatusRecord> {
    FlatMap(NodeStatuses, nodes)
  }

  /** What `parse_status` returns for a reply whose tree is `root`. */
  function StatusReply(root: Element): seq<StatusRecord> {
    match FindBody(root)
    case None => []
    case Some(body) => StatusesOf(PreOrder(body))
  }

  method ParseStatus(root: Element) returns (out: seq<StatusRecord>)
    ensures out == StatusReply(root)
  {
    var body := FindBody(root);
    if body.None? {
      return [];
    }
    out := StatusesIn(PreOrder(body.value));
  }

  /** The loop of `parse_status` over `body.iter()`. */
  method StatusesIn(nodes: seq<Element>) returns (out: seq<StatusRecord>)
    ensures out == StatusesOf(nodes)
  {
    out := [];
    for i := 0 to |nodes|
      invariant out == StatusesOf(nodes[..i])
    {
      assert nodes[..i + 1][..i] == nodes[..i];
      if StripTag(nodes[i].tag) == STATION_DATA {
        var recs := ParseStationStatus(nodes[i]);
        out := out + recs;
      }
    }
    assert nodes[..|nodes|] == nodes;
  }

  /** The body of the `stationData` branch of `parse_status`. */
  method ParseStationStatus(st: Element) returns (out: seq<StatusRecord>)
    ensures out == StationStatuses(st)
  {
    var sid := FieldText(st, "stationID");
    var stationNet := FieldText(st, "networkStatus");
    out := RecordsPerPort(sid, stationNet, ChildrenTagged(st, PORT));
  }

  /** The loop `for p in st.findall("./Port"): ... out.append(rec)`. */
  method RecordsPerPort(sid: string, stationNet: string, ports: seq<Element>) returns (out: seq<StatusRecord>)
    ensures out == PortStatuses(sid, stationNet, ports)
  {
    out := [];
    for k := 0 to |ports|
      invariant out == PortStatuses(sid, stationNet, ports[..k])
    {
      assert ports[..k + 1][..k] == ports[..k];
      var p := ports[k];
      var rec := StatusRecord(
        sid,
        FieldText(p, "portNumber"),
        FieldText(p, "Status"),
        FieldText(p, "faultReason"),
        FieldText(p, "TimeStamp"),
        stationNet);
      out := out + [rec];
    }
    assert ports[..|ports|] == ports;
  }
  // ---------------------------------------------------------------- properties

  lemma {:induction false} PortRowsAt(rec: Row, ps: seq<Element>)
    ensures |PortRows(rec, ps)| == |ps|
    ensures forall i :: 0 <= i < |ps| ==> PortRows(rec, ps)[i] == PortRow(rec, ps[i])
  {
    if ps != [] {
      var front := ps[..|ps| - 1];
      PortRowsAt(rec, front);
      assert PortRows(rec, ps) == PortRows(rec, front) + [PortRow(rec, ps[|ps| - 1])];
      assert forall i :: 0 <= i < |front| ==> front[i] == ps[i];
    }
  }

  /** A `stationData` element yields max(1, number of ports) rows: its `rec` alone when it
      has no `Port` child, otherwise one copy of `rec` per port, in the ports' order. */
  lemma StationRowsShape(st: Element)
    ensures var ports := Ports(st.children);
      |StationRows(st)| == (if ports == [] then 1 else |ports|)
    ensures Ports(st.children) == [] ==> StationRows(st) == [Rec(st.children)]
    ensures forall i :: 0 <= i < |Ports(st.children)| ==>
      StationRows(st)[i] == PortRow(Rec(st.children), Ports(st.children)[i])
  {
    PortRowsAt(Rec(st.children), Ports(st.children));
  }

  /** `rec` holds one entry per distinct non-`Port` child name. */
  lemma {:induction false} RecKeys(cs: seq<Element>, k: string)
    ensures k in Rec(cs) <==> k != PORT && exists j :: 0 <= j < |cs| && StripTag(cs[j].tag) == k
  {
    if cs != [] {
      var front, last := cs[..|cs| - 1], cs[|cs| - 1];
      RecKeys(front, k);
      if k in Rec(cs) {
        if k in Rec(front) {
          var j :| 0 <= j < |front| && StripTag(front[j].tag) == k;
          assert cs[j] == front[j];
        } else {
          assert StripTag(cs[|cs| - 1].tag) == k;
        }
      } else if k != PORT {
        forall j | 0 <= j < |cs|
          ensures StripTag(cs[j].tag) != k
        {
          if j < |front| {
            assert cs[j] == front[j];
          }
        }
      }
    }
  }

  /** The entry of a name in `rec` is the stripped text of the LAST child carrying it. */
  lemma {:induction false} RecLastWins(cs: seq<Element>, k: string)
    requires k in Rec(cs)
    ensures exists j :: (0 <= j < |cs| && StripTag(cs[j].tag) == k
      && Rec(cs)[k] == Str(TextOf(cs[j]))
      && forall j' :: j < j' < |cs| ==> StripTag(cs[j'].tag) != k)
  {
    RecKeys(cs, k);
    var front, last := cs[..|cs| - 1], cs[|cs| - 1];
    if StripTag(last.tag) == k {
      assert Rec(cs)[k] == Str(TextOf(cs[|cs| - 1]));
    } else {
      assert Rec(cs) == Rec(front) || Rec(cs) == Rec(front)[StripTag(last.tag) := Str(TextOf(last))];
      assert k in Rec(front) && Rec(cs)[k] == Rec(front)[k];
      RecLastWins(front, k);
      var j :| 0 <= j < |front| && StripTag(front[j].tag) == k && Rec(front)[k] == Str(TextOf(front[j]))
        && forall j' :: j < j' < |front| ==> StripTag(front[j'].tag) != k;
      LaterNamesDiffer(cs, front, k, j);
    }
  }

  /** The step of the proof above: no child after `j` carries `k` once neither the last
      child nor any of the others after `j` does. */
  lemma LaterNamesDiffer(cs: seq<Element>, front: seq<Element>, k: string, j: nat)
    requires |cs| > 0 && front == cs[..|cs| - 1]
    requires j < |front| && StripTag(cs[|cs| - 1].tag) != k
    requires forall j' :: j < j' < |front| ==> StripTag(front[j'].tag) != k
    ensures forall j' :: j < j' < |cs| ==> StripTag(cs[j'].tag) != k
  {
    forall j' | j < j' < |cs|
      ensures StripTag(cs[j'].tag) != k
    {
      if j' < |front| {
        assert cs[j'] == front[j'];
      }
    }
  }

  /** Rows follow document order: the rows of a node sequence are those of its first part
      followed by those of the rest. */
  lemma RowsOfAppend(a: seq<Element>, b: seq<Element>)
    ensures RowsOf(a + b) == RowsOf(a) + RowsOf(b)
  {
    FlatMapAppend(NodeRows, a, b);
  }

  lemma {:induction false} PortStatusesAt(sid: string, net: string, ps: seq<Element>)
    ensures |PortStatuses(sid, net, ps)| == |ps|
    ensures forall i :: 0 <= i < |ps| ==> PortStatuses(sid, net, ps)[i] == PortStatus(sid, net, ps[i])
  {
    if ps != [] {
      PortStatusesAt(sid, net, ps[..|ps| - 1]);
    }
  }

  /** A `stationData` element of a status reply yields one record per child tagged exactly
      `Port`; every record carries the station's id and network status and the port's own
      number, status, fault reason and time stamp. */
  lemma StationStatusesShape(st: Element)
    ensures var ports := ChildrenTagged(st, PORT);
      |StationStatuses(st)| == |ports|
      && forall i :: 0 <= i < |ports| ==>
        var r := StationStatuses(st)[i];
        && r.stationID == FieldText(st, "stationID")
        && r.networkStatus == FieldText(st, "networkStatus")
        && r.portNumber == FieldText(ports[i], "portNumber")
        && r.portStatus == FieldText(ports[i], "Status")
        && r.faultReason == FieldText(ports[i], "faultReason")
        && r.timestamp == FieldText(ports[i], "TimeStamp")
  {
    PortStatusesAt(FieldText(st, "stationID"), FieldText(st, "networkStatus"), ChildrenTagged(st, PORT));
  }
}

/** `fetch_status_for_station` and `fetch_all_statuses`: every station's status reply,
    gathered, sorted by (stationID, parsed time stamp) and reduced to one summary per
    station with pandas' `groupby(...).agg("last")`. */
module Status {
  import opened Wrappers
  import opened Text
  import opened Xml
  import opened Records
  import opened Seqs
  import opened Soap
  import opened Parse

  // ---------------------------------------------------------------- fetching

  /** `fetch_status_for_station(sid)`: the records of the station's reply, or none when the
      POSTs fail or the reply is not XML. `net(sid)` says how the POSTs for `sid` turn out
      and `parseXml` stands for `ET.fromstring`. */
  function StatusOf(net: string -> nat -> Attempt, parseXml: Bytes -> Option<Element>, sid: string): seq<StatusRecord> {
    match Posted(net(sid))
    case Failure(_) => []
    case Success(b) =>
      match parseXml(b)
      case None => []
      case Some(root) => StatusReply(root)
  }

  function Fetcher(net: string -> nat -> Attempt, parseXml: Bytes -> Option<Element>): string -> seq<StatusRecord> {
    sid => StatusOf(net, parseXml, sid)
  }

  /** `rows`: the replies of all stations, concatenated station after station. */
  function Gathered(net: string -> nat -> Attempt, parseXml: Bytes -> Option<Element>, ids: seq<string>): seq<StatusRecord> {
    FlatMap(Fetcher(net, parseXml), ids)
  }

  method FetchStatusForStation(net: string -> nat -> Attempt, parseXml: Bytes -> Option<Element>, sid: string)
    returns (recs: seq<StatusRecord>)
    ensures recs == StatusOf(net, parseXml, sid)
  {
    var r, _ := PostSoap(net(sid));
    if r.Failure? {
      return [];
    }
    var root := parseXml(r.value);
    if root.None? {
      return [];
    }
    recs := ParseStatus(root.value);
  }

  // ---------------------------------------------------------------- sorting

  /** A status record with its `StatusTimestamp_dt`: the instant `pd.to_datetime` makes of
      its time stamp, or `None` for NaT. */
  datatype Stamped = Stamped(rec: StatusRecord, at: Option<int>)

  function Sid(x: Stamped): string {
    x.rec.stationID
  }

  function StampAll(parseTs: string -> Option<int>, rs: seq<StatusRecord>): seq<Stamped> {
    if rs == [] then []
    else StampAll(parseTs, rs[..|rs| - 1]) + [Stamped(rs[|rs| - 1], parseTs(rs[|rs| - 1].timestamp))]
  }

  /** Ascending time, NaT last (`na_position="last"`). */
  predicate TsLe(a: Option<int>, b: Option<int>) {
    match a
    case None => b.None?
    case Some(x) => b.None? || x <= b.value
  }

  /** The order of `sort_values(["stationID", "StatusTimestamp_dt"])`. */
  predicate KeyLe(x: Stamped, y: Stamped) {
    Less(Sid(x), Sid(y)) || (Sid(x) == Sid(y) && TsLe(x.at, y.at))
  }

  lemma KeyLeTotal(x: Stamped, y: Stamped)
    ensures KeyLe(x, y) || KeyLe(y, x)
  {
    if Sid(x) != Sid(y) {
      LessTotal(Sid(x), Sid(y));
    }
  }

  lemma KeyLeTransitive(x: Stamped, y: Stamped, z: Stamped)
    requires KeyLe(x, y) && KeyLe(y, z)
    ensures KeyLe(x, z)
  {
    if Less(Sid(x), Sid(y)) && Less(Sid(y), Sid(z)) {
      LessTransitive(Sid(x), Sid(y), Sid(z));
    }
  }

  /** Puts `x` after every element that is not greater than it, which keeps the sort stable. */
  function Insert(t: seq<Stamped>, x: Stamped): seq<Stamped> {
    if t == [] then [x]
    else if KeyLe(t[|t| - 1], x) then t + [x]
    else Insert(t[..|t| - 1], x) + [t[|t| - 1]]
  }

  /** A stable sort: records with equal keys keep the order in which they were gathered. */
  function Sort(s: seq<Stamped>): seq<Stamped> {
    if s == [] then [] else Insert(Sort(s[..|s| - 1]), s[|s| - 1])
  }

  predicate Sorted(s: seq<Stamped>) {
    forall i, j :: 0 <= i < j < |s| ==> KeyLe(s[i], s[j])
  }

  lemma {:induction false} InsertMultiset(t: seq<Stamped>, x: Stamped)
    ensures multiset(Insert(t, x)) == multiset(t) + multiset{x}
  {
    if t != [] && !KeyLe(t[|t| - 1], x) {
      InsertMultiset(t[..|t| - 1], x);
      assert t == t[..|t| - 1] + [t[|t| - 1]];
    }
  }

  lemma {:induction false} InsertSorted(t: seq<Stamped>, x: Stamped)
    requires Sorted(t)
    ensures Sorted(Insert(t, x))
  {
    if t == [] {
    } else if KeyLe(t[|t| - 1], x) {
      var r := t + [x];
      forall i, j | 0 <= i < j < |r|
        ensures KeyLe(r[i], r[j])
      {
        if j == |t| && i < |t| - 1 {
          KeyLeTransitive(t[i], t[|t| - 1], x);
        }
      }
    } else {
      var front, last := t[..|t| - 1], t[|t| - 1];
      InsertSorted(front, x);
      InsertMultiset(front, x);
      var u := Insert(front, x);
      KeyLeTotal(last, x);
      forall i | 0 <= i < |u|
        ensures KeyLe(u[i], last)
      {
        assert u[i] in multiset(u);
        if u[i] != x {
          assert u[i] in multiset(front);
          var j :| 0 <= j < |front| && front[j] == u[i];
          assert t[j] == front[j];
        }
      }
      var r := u + [last];
      forall i, j | 0 <= i < j < |r|
        ensures KeyLe(r[i], r[j])
      {
        if j < |u| {
          assert r[i] == u[i] && r[j] == u[j];
        }
      }
    }
  }

  /** The sort orders the records and only reorders them. */
  lemma {:induction false} SortSpec(s: seq<Stamped>)
    ensures Sorted(Sort(s))
    ensures multiset(Sort(s)) == multiset(s)
  {
    if s != [] {
      var front, x := s[..|s| - 1], s[|s| - 1];
      var t := Sort(front);
      SortSpec(front);
      assert Sort(s) == Insert(t, x);
      InsertSorted(t, x);
      InsertMultiset(t, x);
      assert s == front + [x];
      assert multiset(s) == multiset(front) + multiset{x};
    }
  }

  // ---------------------------------------------------------------- one station's records

  /** The records of station `k`, in order. */
  function OfStation(s: seq<Stamped>, k: string): seq<Stamped> {
    if s == [] then []
    else OfStation(s[..|s| - 1], k) + (if Sid(s[|s| - 1]) == k then [s[|s| - 1]] else [])
  }

  lemma {:induction false} OfStationMembers(s: seq<Stamped>, k: string)
    ensures forall x :: x in OfStation(s, k) <==> x in s && Sid(x) == k
  {
    if s != [] {
      OfStationMembers(s[..|s| - 1], k);
      assert s == s[..|s| - 1] + [s[|s| - 1]];
    }
  }

  lemma OfStationSnoc(s: seq<Stamped>, x: Stamped, k: string)
    ensures OfStation(s + [x], k) == OfStation(s, k) + (if Sid(x) == k then [x] else [])
  {
    assert (s + [x])[..|s|] == s;
  }

  lemma {:induction false} OfStationInsert(t: seq<Stamped>, x: Stamped, k: string)
    requires Sorted(t)
    ensures OfStation(Insert(t, x), k) == if Sid(x) == k then Insert(OfStation(t, k), x) else OfStation(t, k)
  {
    if t == [] {
      OfStationSnoc([], x, k);
    } else if KeyLe(t[|t| - 1], x) {
      OfStationAppendGreater(t, x, k);
    } else {
      var front, last := t[..|t| - 1], t[|t| - 1];
      OfStationInsert(front, x, k);
      OfStationInsertBefore(t, x, k);
    }
  }

  /** `x` goes at the end of a sorted `t` whose last record is not greater than it; then it
      also goes at the end of the records of any one station of `t`. */
  lemma OfStationAppendGreater(t: seq<Stamped>, x: Stamped, k: string)
    requires Sorted(t) && t != [] && KeyLe(t[|t| - 1], x)
    ensures OfStation(Insert(t, x), k) == if Sid(x) == k then Insert(OfStation(t, k), x) else OfStation(t, k)
  {
    assert Insert(t, x) == t + [x];
    OfStationSnoc(t, x, k);
    var f := OfStation(t, k);
    if Sid(x) == k && f != [] {
      OfStationMembers(t, k);
      var e := f[|f| - 1];
      assert e in f;
      var j :| 0 <= j < |t| && t[j] == e;
      if j < |t| - 1 {
        KeyLeTransitive(e, t[|t| - 1], x);
      }
      assert Insert(f, x) == f + [x];
    }
  }

  /** The step of `Insert` past a last record greater than `x`. */
  lemma OfStationInsertBefore(t: seq<Stamped>, x: Stamped, k: string)
    requires t != [] && !KeyLe(t[|t| - 1], x)
    requires var front := t[..|t| - 1];
      OfStation(Insert(front, x), k) == if Sid(x) == k then Insert(OfStation(front, k), x) else OfStation(front, k)
    ensures OfStation(Insert(t, x), k) == if Sid(x) == k then Insert(OfStation(t, k), x) else OfStation(t, k)
  {
    var front, last := t[..|t| - 1], t[|t| - 1];
    assert Insert(t, x) == Insert(front, x) + [last];
    OfStationSnoc(Insert(front, x), last, k);
    assert t == front + [last];
    OfStationSnoc(front, last, k);
    var f := OfStation(front, k);
    var tail := if Sid(last) == k then [last] else [];
    assert OfStation(t, k) == f + tail;
    assert OfStation(Insert(t, x), k) == OfStation(Insert(front, x), k) + tail;
    if Sid(x) == k {
      if Sid(last) == k {
        assert (f + [last])[..|f|] == f;
        assert Insert(f + [last], x) == Insert(f, x) + [last];
      } else {
        assert f + tail == f;
        assert Insert(f, x) + tail == Insert(f, x);
      }
    }
  }

  /** Sorting everything and then taking one station's records is sorting that station's
      records: its relative order does not depend on other stations' records. */
  lemma {:induction false} OfStationSort(s: seq<Stamped>, k: string)
    ensures OfStation(Sort(s), k) == Sort(OfStation(s, k))
  {
    if s != [] {
      var front, last := s[..|s| - 1], s[|s| - 1];
      OfStationSort(front, k);
      SortSpec(front);
      assert Sort(s) == Insert(Sort(front), last);
      OfStationInsert(Sort(front), last, k);
      var f := OfStation(front, k);
      if Sid(last) == k {
        assert OfStation(s, k) == f + [last];
        assert (f + [last])[..|f|] == f;
        assert Sort(f + [last]) == Insert(Sort(f), last);
      } else {
        assert OfStation(s, k) == f + [];
        assert OfStation(s, k) == f;
      }
    }
  }

  // ---------------------------------------------------------------- groupby "last"

  /** One row of `agg`: the latest parseable instant and the strings of the last record. */
  datatype Summary = Summary(at: Option<int>, networkStatus: string, lastPortStatus: string, faultReason: string)

  /** `"last"` per column: the time stamp column skips NaT, the string columns take the
      record itself. */
  function Absorb(prev: Option<Summary>, x: Stamped): Summary {
    Summary(
      if x.at.Some? then x.at else if prev.Some? then prev.value.at else None,
      x.rec.networkStatus, x.rec.portStatus, x.rec.faultReason)
  }

  function GroupLast(s: seq<Stamped>): map<string, Summary> {
    if s == [] then map[]
    else
      var m := GroupLast(s[..|s| - 1]);
      var x := s[|s| - 1];
      m[Sid(x) := Absorb(if Sid(x) in m then Some(m[Sid(x)]) else None, x)]
  }

  /** The last instant among `g`, skipping NaT. */
  function LastAt(g: seq<Stamped>): Option<int> {
    if g == [] then None
    else if g[|g| - 1].at.Some? then g[|g| - 1].at
    else LastAt(g[..|g| - 1])
  }

  /** What `"last"` makes of one group. */
  function Summarize(g: seq<Stamped>): Summary
    requires g != []
  {
    var x := g[|g| - 1];
    Summary(LastAt(g), x.rec.networkStatus, x.rec.portStatus, x.rec.faultReason)
  }

  lemma {:induction false} GroupLastAt(s: seq<Stamped>, k: string)
    ensures k in GroupLast(s) <==> OfStation(s, k) != []
    ensures k in GroupLast(s) ==> GroupLast(s)[k] == Summarize(OfStation(s, k))
  {
    if s != [] {
      var front, x := s[..|s| - 1], s[|s| - 1];
      GroupLastAt(front, k);
      if Sid(x) == k {
        var f := OfStation(front, k);
        var m := GroupLast(front);
        assert OfStation(s, k) == f + [x];
        assert (f + [x])[..|f|] == f;
        assert LastAt(f + [x]) == if x.at.Some? then x.at else LastAt(f);
        if f != [] {
          assert m[k] == Summarize(f);
          assert GroupLast(s)[k] == Absorb(Some(m[k]), x);
        } else {
          assert LastAt(f) == None;
        }
      } else {
        assert OfStation(s, k) == OfStation(front, k) + [];
        assert OfStation(s, k) == OfStation(front, k);
      }
    }
  }

  /** A sorted run of one station's records: the last instant is the greatest one, and there
      is none exactly when no time stamp parses. */
  lemma {:induction false} LastAtSorted(u: seq<Stamped>, k: string)
    requires Sorted(u)
    requires forall i :: 0 <= i < |u| ==> Sid(u[i]) == k
    ensures LastAt(u).None? <==> forall i :: 0 <= i < |u| ==> u[i].at.None?
    ensures LastAt(u).Some? ==>
      (exists i :: 0 <= i < |u| && u[i].at == LastAt(u))
      && forall i :: 0 <= i < |u| && u[i].at.Some? ==> u[i].at.value <= LastAt(u).value
  {
    if u != [] {
      var front, y := u[..|u| - 1], u[|u| - 1];
      LessIrreflexive(k);
      if y.at.Some? {
        forall i | 0 <= i < |u| && u[i].at.Some?
          ensures u[i].at.value <= y.at.value
        {
          if i < |u| - 1 {
            assert KeyLe(u[i], y);
          }
        }
      } else {
        LastAtSorted(front, k);
        assert forall i :: 0 <= i < |front| ==> front[i] == u[i];
      }
    }
  }

  /** The record the sort puts last: a later record wins unless it is smaller. */
  function LastMax(g: seq<Stamped>): Stamped
    requires g != []
  {
    if |g| == 1 then g[0]
    else
      var m := LastMax(g[..|g| - 1]);
      if KeyLe(m, g[|g| - 1]) then g[|g| - 1] else m
  }

  lemma {:induction false} SortLast(g: seq<Stamped>)
    requires g != []
    ensures Sort(g) != [] && Sort(g)[|Sort(g)| - 1] == LastMax(g)
  {
    var front, x := g[..|g| - 1], g[|g| - 1];
    if front != [] {
      SortLast(front);
    }
  }

  /** `LastMax` is a greatest record, and the last of the greatest: every later record is
      strictly smaller. */
  lemma {:induction false} LastMaxSpec(g: seq<Stamped>)
    requires g != []
    ensures exists i :: (0 <= i < |g| && g[i] == LastMax(g)
      && (forall j :: 0 <= j < |g| ==> KeyLe(g[j], g[i]))
      && (forall j :: i < j < |g| ==> !KeyLe(g[i], g[j])))
  {
    if |g| == 1 {
      KeyLeTotal(g[0], g[0]);
      assert g[0] == LastMax(g);
    } else {
      var front, x := g[..|g| - 1], g[|g| - 1];
      LastMaxSpec(front);
      var m := LastMax(front);
      var i :| 0 <= i < |front| && front[i] == m
        && (forall j :: 0 <= j < |front| ==> KeyLe(front[j], front[i]))
        && (forall j :: i < j < |front| ==> !KeyLe(front[i], front[j]));
      KeyLeTotal(m, x);
      if KeyLe(m, x) {
        forall j | 0 <= j < |g|
          ensures KeyLe(g[j], x)
        {
          if j < |front| {
            assert g[j] == front[j];
            KeyLeTransitive(g[j], m, x);
          }
        }
        assert g[|g| - 1] == LastMax(g);
      } else {
        assert g[i] == LastMax(g);
        forall j | 0 <= j < |g|
          ensures KeyLe(g[j], g[i])
        {
          if j < |front| {
            assert g[j] == front[j];
          }
        }
        forall j | i < j < |g|
          ensures !KeyLe(g[i], g[j])
        {
          if j < |front| {
            assert g[j] == front[j];
          }
        }
      }
    }
  }

  // ---------------------------------------------------------------- fetch_all_statuses

  /** `agg` for the gathered records `rows`; an empty `rows` gives the empty frame. */
  function Reduce(rows: seq<StatusRecord>, parseTs: string -> Option<int>): map<string, Summary> {
    GroupLast(Sort(StampAll(parseTs, rows)))
  }

  method FetchAllStatuses(ids: seq<string>, net: string -> nat -> Attempt, parseXml: Bytes -> Option<Element>,
                          parseTs: string -> Option<int>)
    returns (agg: map<string, Summary>)
    ensures agg == Reduce(Gathered(net, parseXml, ids), parseTs)
  {
    var rows := [];
    for i := 0 to |ids|
      invariant rows == Gathered(net, parseXml, ids[..i])
    {
      assert ids[..i + 1][..i] == ids[..i];
      var recs := FetchStatusForStation(net, parseXml, ids[i]);
      rows := rows + recs;
    }
    assert ids[..|ids|] == ids;
    if rows == [] {
      return map[];
    }
    var stamped := StampAll(parseTs, rows);
    agg := GroupLast(Sort(stamped));
  }

  /** The records of station `k` among `rs`, in order. */
  function RecordsOf(rs: seq<StatusRecord>, k: string): seq<StatusRecord> {
    if rs == [] then []
    else RecordsOf(rs[..|rs| - 1], k) + (if rs[|rs| - 1].stationID == k then [rs[|rs| - 1]] else [])
  }

  lemma {:induction false} StampRecordsOf(parseTs: string -> Option<int>, rs: seq<StatusRecord>, k: string)
    ensures OfStation(StampAll(parseTs, rs), k) == StampAll(parseTs, RecordsOf(rs, k))
  {
    if rs != [] {
      var front, x := rs[..|rs| - 1], rs[|rs| - 1];
      StampRecordsOf(parseTs, front, k);
      OfStationSnoc(StampAll(parseTs, front), Stamped(x, parseTs(x.timestamp)), k);
      var f := RecordsOf(front, k);
      var sx := Stamped(x, parseTs(x.timestamp));
      assert StampAll(parseTs, rs) == StampAll(parseTs, front) + [sx];
      if x.stationID == k {
        assert RecordsOf(rs, k) == f + [x];
        assert (f + [x])[..|f|] == f;
        assert StampAll(parseTs, f + [x]) == StampAll(parseTs, f) + [sx];
      } else {
        assert RecordsOf(rs, k) == f + [];
        assert RecordsOf(rs, k) == f;
      }
    }
  }

  /** Station `k`'s summary is what its own records, sorted, reduce to. */
  lemma ReduceAt(rows: seq<StatusRecord>, parseTs: string -> Option<int>, k: string)
    ensures k in Reduce(rows, parseTs) <==> RecordsOf(rows, k) != []
    ensures k in Reduce(rows, parseTs) ==>
      Reduce(rows, parseTs)[k] == Summarize(Sort(StampAll(parseTs, RecordsOf(rows, k))))
  {
    var s := StampAll(parseTs, rows);
    GroupLastAt(Sort(s), k);
    OfStationSort(s, k);
    StampRecordsOf(parseTs, rows, k);
    var g := StampAll(parseTs, RecordsOf(rows, k));
    SortSpec(g);
    StampLength(parseTs, RecordsOf(rows, k));
    if g != [] {
      assert g[0] in multiset(Sort(g));
    }
  }

  lemma {:induction false} StampLength(parseTs: string -> Option<int>, rs: seq<StatusRecord>)
    ensures |StampAll(parseTs, rs)| == |rs|
  {
    if rs != [] {
      StampLength(parseTs, rs[..|rs| - 1]);
    }
  }

  /** Each station's summary depends on its own records alone: two gatherings that agree on
      station `k`'s records agree on `k`'s summary. */
  lemma ReduceLocal(rows1: seq<StatusRecord>, rows2: seq<StatusRecord>, parseTs: string -> Option<int>, k: string)
    requires RecordsOf(rows1, k) == RecordsOf(rows2, k)
    ensures k in Reduce(rows1, parseTs) <==> k in Reduce(rows2, parseTs)
    ensures k in Reduce(rows1, parseTs) ==> Reduce(rows1, parseTs)[k] == Reduce(rows2, parseTs)[k]
  {
    ReduceAt(rows1, parseTs, k);
    ReduceAt(rows2, parseTs, k);
  }

  /** There is exactly one summary per station that has at least one gathered record. */
  lemma SummaryKeys(rows: seq<StatusRecord>, parseTs: string -> Option<int>, k: string)
    ensures k in Reduce(rows, parseTs) <==> exists i :: 0 <= i < |rows| && rows[i].stationID == k
  {
    ReduceAt(rows, parseTs, k);
    RecordsOfMembers(rows, k);
  }

  /** What `"last"` makes of one station's sorted records: the greatest parseable instant,
      missing exactly when none parses. */
  lemma {:induction false} GroupInstant(g: seq<Stamped>, k: string)
    requires g != []
    requires forall i :: 0 <= i < |g| ==> Sid(g[i]) == k
    ensures var at := Summarize(Sort(g)).at;
      && (at.None? <==> forall i :: 0 <= i < |g| ==> g[i].at.None?)
      && (at.Some? ==>
            (exists i :: 0 <= i < |g| && g[i].at == at)
            && forall i :: 0 <= i < |g| && g[i].at.Some? ==> g[i].at.value <= at.value)
  {
    SortSpec(g);
    var u := Sort(g);
    MultisetSameMembers(u, g);
    forall i | 0 <= i < |u|
      ensures Sid(u[i]) == k
    {
      assert u[i] in g;
    }
    LastAtSorted(u, k);
    if LastAt(u).Some? {
      var i :| 0 <= i < |u| && u[i].at == LastAt(u);
      assert u[i] in g;
    }
    forall i | 0 <= i < |g|
      ensures g[i] in u
    {
    }
  }

  /** The strings `"last"` takes for one station come from a greatest record of it that no
      later record equals or exceeds. */
  lemma GroupStrings(g: seq<Stamped>, k: string)
    requires g != []
    requires forall i :: 0 <= i < |g| ==> Sid(g[i]) == k
    ensures var sum := Summarize(Sort(g));
      exists i :: (0 <= i < |g|
        && sum.networkStatus == g[i].rec.networkStatus
        && sum.lastPortStatus == g[i].rec.portStatus
        && sum.faultReason == g[i].rec.faultReason
        && (forall j :: 0 <= j < |g| ==> TsLe(g[j].at, g[i].at))
        && (forall j :: i < j < |g| ==> !TsLe(g[i].at, g[j].at)))
  {
    SortLast(g);
    LastMaxSpec(g);
    LessIrreflexive(k);
  }

  /** `StatusTimestamp`, kept as the instant it is formatted from, is the greatest instant
      among station `k`'s parseable time stamps, and missing exactly when none parses. */
  lemma SummaryInstant(rows: seq<StatusRecord>, parseTs: string -> Option<int>, k: string)
    requires k in Reduce(rows, parseTs)
    ensures var at := Reduce(rows, parseTs)[k].at;
      var g := StampAll(parseTs, RecordsOf(rows, k));
      && (at.None? <==> forall i :: 0 <= i < |g| ==> g[i].at.None?)
      && (at.Some? ==>
            (exists i :: 0 <= i < |g| && g[i].at == at)
            && forall i :: 0 <= i < |g| && g[i].at.Some? ==> g[i].at.value <= at.value)
  {
    ReduceAt(rows, parseTs, k);
    RecordsOfMembers(rows, k);
    StampStation(parseTs, RecordsOf(rows, k), k);
    StampLength(parseTs, RecordsOf(rows, k));
    GroupInstant(StampAll(parseTs, RecordsOf(rows, k)), k);
  }

  /** The status strings of station `k` come from the record sorted last: one with the
      greatest time stamp (NaT counting as greatest) that no later gathered record of `k`
      equals or exceeds. */
  lemma SummaryStrings(rows: seq<StatusRecord>, parseTs: string -> Option<int>, k: string)
    requires k in Reduce(rows, parseTs)
    ensures var sum := Reduce(rows, parseTs)[k];
      var g := StampAll(parseTs, RecordsOf(rows, k));
      exists i :: (0 <= i < |g|
        && sum.networkStatus == g[i].rec.networkStatus
        && sum.lastPortStatus == g[i].rec.portStatus
        && sum.faultReason == g[i].rec.faultReason
        && (forall j :: 0 <= j < |g| ==> TsLe(g[j].at, g[i].at))
        && (forall j :: i < j < |g| ==> !TsLe(g[i].at, g[j].at)))
  {
    ReduceAt(rows, parseTs, k);
    RecordsOfMembers(rows, k);
    StampStation(parseTs, RecordsOf(rows, k), k);
    StampLength(parseTs, RecordsOf(rows, k));
    GroupStrings(StampAll(parseTs, RecordsOf(rows, k)), k);
  }

  lemma MultisetSameMembers(u: seq<Stamped>, g: seq<Stamped>)
    requires multiset(u) == multiset(g)
    ensures forall x :: x in u <==> x in g
  {
    forall x
      ensures x in u <==> x in g
    {
      assert x in u <==> x in multiset(u);
      assert x in g <==> x in multiset(g);
    }
  }

  lemma {:induction false} StampStation(parseTs: string -> Option<int>, rs: seq<StatusRecord>, k: string)
    requires forall i :: 0 <= i < |rs| ==> rs[i].stationID == k
    ensures forall i :: 0 <= i < |StampAll(parseTs, rs)| ==> Sid(StampAll(parseTs, rs)[i]) == k
  {
    if rs != [] {
      StampStation(parseTs, rs[..|rs| - 1], k);
    }
  }

  lemma {:induction false} RecordsOfMembers(rs: seq<StatusRecord>, k: string)
    ensures forall i :: 0 <= i < |RecordsOf(rs, k)| ==> RecordsOf(rs, k)[i].stationID == k
    ensures RecordsOf(rs, k) != [] <==> exists i :: 0 <= i < |rs| && rs[i].stationID == k
  {
    if rs != [] {
      RecordsOfMembers(rs[..|rs| - 1], k);
      assert forall i :: 0 <= i < |rs| - 1 ==> rs[..|rs| - 1][i] == rs[i];
    }
  }

  // ---------------------------------------------------------------- completion order

  /** Every record of `recs` belongs to station `sid`. */
  predicate OwnRecords(recs: seq<StatusRecord>, sid: string) {
    forall i :: 0 <= i < |recs| ==> recs[i].stationID == sid
  }

  predicate Distinct(ids: seq<string>) {
    forall i, j :: 0 <= i < j < |ids| ==> ids[i] != ids[j]
  }

  lemma {:induction false} RecordsOfAppend(a: seq<StatusRecord>, b: seq<StatusRecord>, k: string)
    ensures RecordsOf(a + b, k) == RecordsOf(a, k) + RecordsOf(b, k)
    decreases |b|
  {
    if b == [] {
      assert a + b == a;
    } else {
      var front := b[..|b| - 1];
      assert (a + b)[..|a + b| - 1] == a + front;
      assert (a + b)[|a + b| - 1] == b[|b| - 1];
      RecordsOfAppend(a, front, k);
    }
  }

  lemma {:induction false} RecordsOfOwn(recs: seq<StatusRecord>, sid: string, k: string)
    requires OwnRecords(recs, sid)
    ensures RecordsOf(recs, k) == if sid == k then recs else []
  {
    if recs != [] {
      RecordsOfOwn(recs[..|recs| - 1], sid, k);
      assert recs == recs[..|recs| - 1] + [recs[|recs| - 1]];
    }
  }

  /** When every reply holds only its own station's records and no station is asked twice,
      station `k`'s gathered records are its own reply, or none when it was not asked. */
  lemma {:induction false} GatheredRecordsOf(f: string -> seq<StatusRecord>, ids: seq<string>, k: string)
    requires Distinct(ids)
    requires forall i :: 0 <= i < |ids| ==> OwnRecords(f(ids[i]), ids[i])
    ensures RecordsOf(FlatMap(f, ids), k) == if k in ids then f(k) else []
  {
    if ids != [] {
      var front, last := ids[..|ids| - 1], ids[|ids| - 1];
      assert forall i :: 0 <= i < |front| ==> front[i] == ids[i];
      GatheredRecordsOf(f, front, k);
      assert FlatMap(f, ids) == FlatMap(f, front) + f(last);
      RecordsOfAppend(FlatMap(f, front), f(last), k);
      RecordsOfOwn(f(last), last, k);
      assert k in ids <==> k in front || k == last by {
        assert ids == front + [last];
      }
      if k == last {
        assert k !in front;
      }
    }
  }

  /** The summaries do not depend on the order in which the replies complete: gathering the
      same distinct stations in any other order gives the same summaries. */
  lemma CompletionOrder(net: string -> nat -> Attempt, parseXml: Bytes -> Option<Element>,
                        parseTs: string -> Option<int>, ids1: seq<string>, ids2: seq<string>)
    requires Distinct(ids1) && Distinct(ids2) && multiset(ids1) == multiset(ids2)
    requires forall i :: 0 <= i < |ids1| ==> OwnRecords(StatusOf(net, parseXml, ids1[i]), ids1[i])
    ensures Reduce(Gathered(net, parseXml, ids1), parseTs) == Reduce(Gathered(net, parseXml, ids2), parseTs)
  {
    var f := Fetcher(net, parseXml);
    var r1, r2 := Gathered(net, parseXml, ids1), Gathered(net, parseXml, ids2);
    forall i | 0 <= i < |ids2|
      ensures OwnRecords(f(ids2[i]), ids2[i])
    {
      assert ids2[i] in multiset(ids1);
      var j :| 0 <= j < |ids1| && ids1[j] == ids2[i];
    }
    forall k
      ensures k in Reduce(r1, parseTs) <==> k in Reduce(r2, parseTs)
      ensures k in Reduce(r1, parseTs) ==> Reduce(r1, parseTs)[k] == Reduce(r2, parseTs)[k]
    {
      GatheredRecordsOf(f, ids1, k);
      GatheredRecordsOf(f, ids2, k);
      assert k in ids1 <==> k in multiset(ids1);
      assert k in ids2 <==> k in multiset(ids2);
      ReduceLocal(r1, r2, parseTs, k);
    }
  }

  /** When each reply holds only its own station and no station is asked twice, a station
      has a summary exactly when it was asked and its reply held at least one port. */
  lemma SummaryPresent(net: string -> nat -> Attempt, parseXml: Bytes -> Option<Element>,
                       parseTs: string -> Option<int>, ids: seq<string>, k: string)
    requires Distinct(ids)
    requires forall i :: 0 <= i < |ids| ==> OwnRecords(StatusOf(net, parseXml, ids[i]), ids[i])
    ensures k in Reduce(Gathered(net, parseXml, ids), parseTs) <==> k in ids && StatusOf(net, parseXml, k) != []
  {
    GatheredRecordsOf(Fetcher(net, parseXml), ids, k);
    ReduceAt(Gathered(net, parseXml, ids), parseTs, k);
  }

  /** A station whose POSTs all fail has no summary, whatever the other stations reply. */
  lemma FailedStationAbsent(net: string -> nat -> Attempt, parseXml: Bytes -> Option<Element>,
                            parseTs: string -> Option<int>, ids: seq<string>, k: string)
    requires Distinct(ids)
    requires forall i :: 0 <= i < |ids| ==> OwnRecords(StatusOf(net, parseXml, ids[i]), ids[i])
    requires Posted(net(k)).Failure?
    ensures k !in Reduce(Gathered(net, parseXml, ids), parseTs)
  {
    SummaryPresent(net, parseXml, parseTs, ids, k);
  }
}

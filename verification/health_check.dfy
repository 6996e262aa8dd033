/** The decision logic of api-gateway/health_check.py: how a port probe
    becomes "open" or "closed", which ports are probed, and how
    `complete_health_check` folds the component reports into one overall
    status. The probes themselves (database connection, HTTP requests,
    `connect_ex`) are inputs. */
module HealthCheck {
  import opened Text

  const Healthy: string := "healthy"
  const Degraded: string := "degraded"
  const Unhealthy: string := "unhealthy"
  const Open: string := "open"
  const Closed: string := "closed"

  /** One entry of the `hl7_ports` list. */
  datatype PortEntry = PortEntry(name: string, port: int, status: string)

  /** A value of the `components` dict: either a report dict, of which only
      the "status" key matters here, or the list of port entries. */
  datatype Component =
    | Report(status: string)
    | PortList(entries: seq<PortEntry>)

  /** The three MLLP listener ports, in the order they are probed. */
  const MonitoredPorts: seq<(string, int)> :=
    [("HIS-RIS", 6661), ("RIS-Modality", 6662), ("Report-HIS", 6663)]

  /* ---------------------------------------------------------------------- */
  /* Component probes                                                       */
  /* ---------------------------------------------------------------------- */

  /** The status of one port from the error number `connect_ex` returned. */
  function PortStatus(result: int): (s: string)
    ensures s == Open || s == Closed
    ensures s == Open <==> result == 0
  {
    if result == 0 then Open else Closed
  }

  /** `check_hl7_ports`, with `connect_ex` on localhost as a parameter. */
  function CheckHl7Ports(connectEx: int -> int): (r: seq<PortEntry>)
    ensures |r| == |MonitoredPorts| == 3
    ensures forall i :: 0 <= i < |r| ==>
              && r[i].name == MonitoredPorts[i].0
              && r[i].port == MonitoredPorts[i].1
              && (r[i].status == Open <==> connectEx(MonitoredPorts[i].1) == 0)
              && (r[i].status == Closed <==> connectEx(MonitoredPorts[i].1) != 0)
  {
    seq(|MonitoredPorts|, i requires 0 <= i < |MonitoredPorts| =>
      PortEntry(MonitoredPorts[i].0, MonitoredPorts[i].1, PortStatus(connectEx(MonitoredPorts[i].1))))
  }

  /** `check_database`: healthy when the connection and `SELECT 1` succeed,
      unhealthy when they raise. */
  function CheckDatabase(connected: bool): (c: Component)
    ensures c.Report? && (c.status == Healthy <==> connected)
    ensures c.status == Healthy || c.status == Unhealthy
  {
    Report(if connected then Healthy else Unhealthy)
  }

  /** `check_mirth_connect` and `check_ai_api`: the HTTP status code of the
      probe, None when the request raised. Healthy only for 200. */
  function CheckHttp(code: Option<int>): (c: Component)
    ensures c.Report? && (c.status == Healthy <==> code == Some(200))
    ensures c.status == Healthy || c.status == Unhealthy
  {
    Report(if code == Some(200) then Healthy else Unhealthy)
  }

  /* ---------------------------------------------------------------------- */
  /* Overall status                                                         */
  /* ---------------------------------------------------------------------- */

  /** Some report dict says "unhealthy". */
  predicate AnyUnhealthy(components: seq<Component>) {
    exists i :: 0 <= i < |components| && components[i].Report? && components[i].status == Unhealthy
  }

  predicate HasClosed(entries: seq<PortEntry>) {
    exists j :: 0 <= j < |entries| && entries[j].status == Closed
  }

  /** Some port list holds a "closed" entry. */
  predicate AnyClosed(components: seq<Component>) {
    exists i :: 0 <= i < |components| && components[i].PortList? && HasClosed(components[i].entries)
  }

  /** The intended reading of the overall status: unhealthy dominates
      degraded, degraded dominates healthy. */
  function Summary(components: seq<Component>): string {
    if AnyUnhealthy(components) then Unhealthy
    else if AnyClosed(components) then Degraded
    else Healthy
  }

  lemma AnyUnhealthySnoc(components: seq<Component>, c: Component)
    ensures AnyUnhealthy(components + [c])
        <==> AnyUnhealthy(components) || (c.Report? && c.status == Unhealthy)
  {
    var cs := components + [c];
    assert cs[|components|] == c;
    if AnyUnhealthy(components) {
      var i :| 0 <= i < |components| && components[i].Report? && components[i].status == Unhealthy;
      assert cs[i] == components[i];
    }
  }

  lemma AnyClosedSnoc(components: seq<Component>, c: Component)
    ensures AnyClosed(components + [c])
        <==> AnyClosed(components) || (c.PortList? && HasClosed(c.entries))
  {
    var cs := components + [c];
    assert cs[|components|] == c;
    if AnyClosed(components) {
      var i :| 0 <= i < |components| && components[i].PortList? && HasClosed(components[i].entries);
      assert cs[i] == components[i];
    }
  }

  /** The inner loop over a port list: each closed entry sets "degraded",
      an open one leaves the status as it was. */
  method ScanPorts(entries: seq<PortEntry>, overall: string) returns (updated: string)
    ensures updated == if HasClosed(entries) then Degraded else overall
  {
    updated := overall;
    var j := 0;
    while j < |entries|
      invariant 0 <= j <= |entries|
      invariant updated == if HasClosed(entries[..j]) then Degraded else overall
    {
      if entries[j].status == Closed {
        updated := Degraded;
      }
      assert entries[..j + 1] == entries[..j] + [entries[j]];
      assert entries[..j + 1][j] == entries[j];
      j := j + 1;
    }
    assert entries[..j] == entries;
  }

  /** The loop at the end of `complete_health_check`: start from "healthy";
      a report dict saying "unhealthy" sets "unhealthy" and stops the scan; a
      port list sets "degraded" for each closed entry. */
  method OverallStatus(components: seq<Component>) returns (overall: string)
    ensures overall == Summary(components)
  {
    overall := Healthy;
    var i := 0;
    while i < |components|
      invariant 0 <= i <= |components|
      invariant !AnyUnhealthy(components[..i])
      invariant overall == if AnyClosed(components[..i]) then Degraded else Healthy
    {
      AnyUnhealthySnoc(components[..i], components[i]);
      AnyClosedSnoc(components[..i], components[i]);
      assert components[..i + 1] == components[..i] + [components[i]];
      match components[i] {
        case Report(status) =>
          if status == Unhealthy {
            overall := Unhealthy;
            break;
          }
        case PortList(entries) =>
          overall := ScanPorts(entries, overall);
      }
      i := i + 1;
    }
    if i == |components| {
      assert components[..i] == components;
    }
  }

  /** The result of `complete_health_check` without its timestamp. */
  datatype HealthStatus = HealthStatus(overall: string, components: seq<Component>)

  /** `complete_health_check`, the probe outcomes given as parameters; the
      components appear in the order database, mirth_connect, hl7_ports,
      ai_api. */
  method CompleteHealthCheck(dbConnected: bool, mirthCode: Option<int>, connectEx: int -> int,
                             aiCode: Option<int>)
    returns (health: HealthStatus)
    ensures health.components
         == [CheckDatabase(dbConnected), CheckHttp(mirthCode), PortList(CheckHl7Ports(connectEx)), CheckHttp(aiCode)]
    ensures health.overall == Unhealthy
        <==> !dbConnected || mirthCode != Some(200) || aiCode != Some(200)
    ensures health.overall == Degraded
        <==> dbConnected && mirthCode == Some(200) && aiCode == Some(200)
             && exists i :: 0 <= i < |MonitoredPorts| && connectEx(MonitoredPorts[i].1) != 0
    ensures health.overall == Healthy
        <==> dbConnected && mirthCode == Some(200) && aiCode == Some(200)
             && forall i :: 0 <= i < |MonitoredPorts| ==> connectEx(MonitoredPorts[i].1) == 0
  {
    var components :=
      [CheckDatabase(dbConnected), CheckHttp(mirthCode), PortList(CheckHl7Ports(connectEx)), CheckHttp(aiCode)];
    var overall := OverallStatus(components);
    health := HealthStatus(overall, components);
    CompleteSummary(dbConnected, mirthCode, connectEx, aiCode);
  }

  lemma CompleteSummary(dbConnected: bool, mirthCode: Option<int>, connectEx: int -> int, aiCode: Option<int>)
    ensures var components :=
      [CheckDatabase(dbConnected), CheckHttp(mirthCode), PortList(CheckHl7Ports(connectEx)), CheckHttp(aiCode)];
      && (AnyUnhealthy(components) <==> !dbConnected || mirthCode != Some(200) || aiCode != Some(200))
      && (AnyClosed(components)
          <==> exists i :: 0 <= i < |MonitoredPorts| && connectEx(MonitoredPorts[i].1) != 0)
  {
    var components :=
      [CheckDatabase(dbConnected), CheckHttp(mirthCode), PortList(CheckHl7Ports(connectEx)), CheckHttp(aiCode)];
    var ports := CheckHl7Ports(connectEx);
    assert components[2] == PortList(ports);
    if !dbConnected {
      assert components[0].Report? && components[0].status == Unhealthy;
    }
    if mirthCode != Some(200) {
      assert components[1].Report? && components[1].status == Unhealthy;
    }
    if aiCode != Some(200) {
      assert components[3].Report? && components[3].status == Unhealthy;
    }
    if exists i :: 0 <= i < |MonitoredPorts| && connectEx(MonitoredPorts[i].1) != 0 {
      var i :| 0 <= i < |MonitoredPorts| && connectEx(MonitoredPorts[i].1) != 0;
      assert ports[i].status == Closed;
      assert HasClosed(ports);
    }
  }

  /* ---------------------------------------------------------------------- */
  /* Properties of the summary                                              */
  /* ---------------------------------------------------------------------- */

  /** One unhealthy report makes the whole result unhealthy, whatever
      closed ports surround it. */
  lemma UnhealthyDominates(before: seq<Component>, status: string, after: seq<Component>)
    requires status == Unhealthy
    ensures Summary(before + [Report(status)] + after) == Unhealthy
  {
    var cs := before + [Report(status)] + after;
    assert cs[|before|] == Report(status);
  }

  /** The summary depends only on which components occur, not on their
      order or repetition: the dict's key order does not matter. */
  lemma SummaryIgnoresOrder(a: seq<Component>, b: seq<Component>)
    requires forall c :: c in a <==> c in b
    ensures Summary(a) == Summary(b)
  {
    forall c | c in a
      ensures c in b
    {
    }
    if AnyUnhealthy(a) {
      var i :| 0 <= i < |a| && a[i].Report? && a[i].status == Unhealthy;
      assert a[i] in b;
    }
    if AnyUnhealthy(b) {
      var i :| 0 <= i < |b| && b[i].Report? && b[i].status == Unhealthy;
      assert b[i] in a;
    }
    if AnyClosed(a) {
      var i :| 0 <= i < |a| && a[i].PortList? && HasClosed(a[i].entries);
      assert a[i] in b;
    }
    if AnyClosed(b) {
      var i :| 0 <= i < |b| && b[i].PortList? && HasClosed(b[i].entries);
      assert b[i] in a;
    }
  }

  /** With every probe succeeding and every port open the system is
      healthy; one closed port alone makes it degraded. */
  lemma OneClosedPortDegrades(connectEx: int -> int)
    requires connectEx(6661) == 0 && connectEx(6662) != 0 && connectEx(6663) == 0
    ensures Summary([CheckDatabase(true), CheckHttp(Some(200)), PortList(CheckHl7Ports(connectEx)),
                     CheckHttp(Some(200))]) == Degraded
  {
    CompleteSummary(true, Some(200), connectEx, Some(200));
    assert connectEx(MonitoredPorts[1].1) != 0;
  }
}

/**
 * The two kinds of result rows and the row sequences that one call of
 * NmapXMLParser#parse appends for a report: one host row per host, and one
 * service row per port that has a service, hosts first, then ports, in
 * document order.
 */
module Rows {
  import opened Optional
  import opened RubyString
  import opened NmapReport
  import opened Projection
  import opened SeqFacts

  /** One entry of host_results: IP-Address, Hostname, Mac, Mac-Vendor, OS. */
  datatype HostRow = HostRow(
    ip: Option<string>,
    hostname: Option<string>,
    mac: Option<string>,
    macVendor: Option<string>,
    os: Option<string>)

  /**
   * One entry of service_results: IP-Address, Hostname, Mac, Mac-Vendor,
   * OS name, Port, Protocol, Service, State, Tunnel, HTTP-Title, Info.
   */
  datatype ServiceRow = ServiceRow(
    ip: Option<string>,
    hostname: Option<string>,
    mac: Option<string>,
    macVendor: Option<string>,
    osName: Option<string>,
    port: Option<string>,
    protocol: Option<string>,
    service: Option<string>,
    state: Option<string>,
    tunnel: Option<string>,
    httpTitle: Option<string>,
    info: string)

  /** The host row for a host. */
  function HostRowOf(h: Host): HostRow {
    HostRow(Ip(h), Hostname(h), Mac(h), MacVendor(h), OsName(h))
  }

  /** What each column of a host row means in terms of the host element. */
  lemma HostRowFields(h: Host)
    ensures var r := HostRowOf(h);
            && IsFirstCarried(h.addresses, "ipv4", Addr, r.ip)
            && IsFirstCarried(h.addresses, "mac", Addr, r.mac)
            && IsFirstCarried(h.addresses, "mac", Vendor, r.macVendor)
            && IsFirstPresent(h.hostnames, r.hostname)
            && IsFirstPresent(h.osmatches, r.os)
  {
  }

  /** The service row carries the host-level values of hr unchanged. */
  predicate SameHostValues(r: ServiceRow, hr: HostRow) {
    r.ip == hr.ip && r.hostname == hr.hostname && r.mac == hr.mac
    && r.macVendor == hr.macVendor && r.osName == hr.os
  }

  /** The service row for port p of the host whose values are hr, when p's service is svc. */
  function ServiceRowOf(hr: HostRow, p: Port, svc: Service): ServiceRow {
    ServiceRow(hr.ip, hr.hostname, hr.mac, hr.macVendor, hr.os,
               p.portid, p.protocol, ServiceName(svc), State(p), svc.tunnel, HttpTitle(p), Info(svc))
  }

  /** What each column of a service row means in terms of the report. */
  lemma ServiceRowFields(hr: HostRow, p: Port, svc: Service)
    ensures var r := ServiceRowOf(hr, p, svc);
            && SameHostValues(r, hr)
            && r.port == p.portid && r.protocol == p.protocol && r.tunnel == svc.tunnel
            && IsFirstPresent(p.states, r.state)
            && (Confidence(svc) >= ConfidenceThreshold ==> r.service == svc.name)
            && (Confidence(svc) < ConfidenceThreshold ==> r.service == Some("N/A"))
            && IsFirstOutput(p.scripts, "http-title", r.httpTitle)
            && r.info == Info(svc) && Trimmed(r.info)
            && (r.info == "" <==> Blank(svc.product) && Blank(svc.version) && Blank(svc.extrainfo))
  {
    InfoEmptyIff(svc);
  }

  // ---------------------------------------------------------------------
  // Rows of one host's ports
  // ---------------------------------------------------------------------

  /** The service rows the port loop appends: one per port with a service, in order. */
  function PortRows(hr: HostRow, ports: seq<Port>): (rows: seq<ServiceRow>)
    ensures |rows| <= |ports|
    ensures forall k :: 0 <= k < |rows| ==> SameHostValues(rows[k], hr)
  {
    if ports == [] then []
    else
      var rest := PortRows(hr, ports[1..]);
      match ports[0].service
      case None => rest
      case Some(svc) => [ServiceRowOf(hr, ports[0], svc)] + rest
  }

  /** The ports that have a service, in order. */
  function Serviced(ports: seq<Port>): (r: seq<Port>)
    ensures |r| <= |ports|
    ensures forall k :: 0 <= k < |r| ==> r[k].service.Some?
  {
    if ports == [] then []
    else if ports[0].service.Some? then [ports[0]] + Serviced(ports[1..])
    else Serviced(ports[1..])
  }

  /** The ports kept by Serviced are exactly those with a service. */
  lemma {:induction false} ServicedMembers(ports: seq<Port>)
    ensures forall p :: p in Serviced(ports) <==> p in ports && p.service.Some?
  {
    if ports != [] {
      ServicedMembers(ports[1..]);
      ConcatTail([ports[0]], ports[1..]);
    }
  }

  /** The k-th service row of a host is the row of its k-th port that has a service. */
  lemma {:induction false} PortRowsOfServiced(hr: HostRow, ports: seq<Port>)
    ensures |PortRows(hr, ports)| == |Serviced(ports)|
    ensures forall k :: 0 <= k < |Serviced(ports)| ==>
              PortRows(hr, ports)[k] == ServiceRowOf(hr, Serviced(ports)[k], Serviced(ports)[k].service.value)
  {
    if ports != [] {
      PortRowsOfServiced(hr, ports[1..]);
    }
  }

  lemma {:induction false} PortRowsConcat(hr: HostRow, a: seq<Port>, b: seq<Port>)
    ensures PortRows(hr, a + b) == PortRows(hr, a) + PortRows(hr, b)
  {
    if a == [] {
      EmptyConcat(b);
    } else {
      ConcatTail(a, b);
      PortRowsConcat(hr, a[1..], b);
    }
  }

  /** One more port adds its row when it has a service, and nothing otherwise. */
  lemma PortRowsSnoc(hr: HostRow, ports: seq<Port>, p: Port)
    ensures p.service.None? ==> PortRows(hr, ports + [p]) == PortRows(hr, ports)
    ensures p.service.Some? ==> PortRows(hr, ports + [p]) == PortRows(hr, ports) + [ServiceRowOf(hr, p, p.service.value)]
  {
    PortRowsConcat(hr, ports, [p]);
    SingletonTail(p);
  }

  /** The rows of the first j + 1 ports: those of the first j, then port j's if it has a service. */
  lemma PortRowsOfPrefix(hr: HostRow, ports: seq<Port>, j: nat)
    requires j < |ports|
    ensures ports[j].service.None? ==> PortRows(hr, ports[..j + 1]) == PortRows(hr, ports[..j])
    ensures ports[j].service.Some? ==>
              PortRows(hr, ports[..j + 1]) == PortRows(hr, ports[..j]) + [ServiceRowOf(hr, ports[j], ports[j].service.value)]
  {
    PrefixSnoc(ports, j);
    PortRowsSnoc(hr, ports[..j], ports[j]);
  }

  // ---------------------------------------------------------------------
  // Rows of a whole report
  // ---------------------------------------------------------------------

  /** The host rows one parse appends: one per host, in document order, ports or not. */
  function HostRows(hosts: seq<Host>): (rows: seq<HostRow>)
    ensures |rows| == |hosts|
    ensures forall i {:trigger rows[i]} :: 0 <= i < |hosts| ==> rows[i] == HostRowOf(hosts[i])
  {
    if hosts == [] then [] else [HostRowOf(hosts[0])] + HostRows(hosts[1..])
  }

  /** The service rows of one host. */
  function HostServiceRows(h: Host): seq<ServiceRow> {
    PortRows(HostRowOf(h), h.ports)
  }

  /** The service rows one parse appends: host by host, port by port. */
  function ServiceRows(hosts: seq<Host>): seq<ServiceRow> {
    if hosts == [] then [] else HostServiceRows(hosts[0]) + ServiceRows(hosts[1..])
  }

  /** The number of ports that have a service, over all hosts. */
  function ServicePortCount(hosts: seq<Host>): nat {
    if hosts == [] then 0 else |Serviced(hosts[0].ports)| + ServicePortCount(hosts[1..])
  }

  /** Exactly one service row per port with a service. */
  lemma {:induction false} ServiceRowsCount(hosts: seq<Host>)
    ensures |ServiceRows(hosts)| == ServicePortCount(hosts)
  {
    if hosts != [] {
      PortRowsOfServiced(HostRowOf(hosts[0]), hosts[0].ports);
      ServiceRowsCount(hosts[1..]);
    }
  }

  lemma {:induction false} HostRowsConcat(a: seq<Host>, b: seq<Host>)
    ensures HostRows(a + b) == HostRows(a) + HostRows(b)
  {
    if a == [] {
      EmptyConcat(b);
    } else {
      ConcatTail(a, b);
      HostRowsConcat(a[1..], b);
    }
  }

  lemma {:induction false} ServiceRowsConcat(a: seq<Host>, b: seq<Host>)
    ensures ServiceRows(a + b) == ServiceRows(a) + ServiceRows(b)
  {
    if a == [] {
      EmptyConcat(b);
    } else {
      ConcatTail(a, b);
      ServiceRowsConcat(a[1..], b);
    }
  }

  lemma ServiceRowsSingleton(h: Host)
    ensures ServiceRows([h]) == HostServiceRows(h)
  {
    SingletonTail(h);
  }

  /** One more host adds its host row at the end. */
  lemma HostRowsSnoc(hosts: seq<Host>, h: Host)
    ensures HostRows(hosts + [h]) == HostRows(hosts) + [HostRowOf(h)]
  {
    HostRowsConcat(hosts, [h]);
    SingletonTail(h);
  }

  /** One more host adds its service rows at the end. */
  lemma ServiceRowsSnoc(hosts: seq<Host>, h: Host)
    ensures ServiceRows(hosts + [h]) == ServiceRows(hosts) + HostServiceRows(h)
  {
    ServiceRowsConcat(hosts, [h]);
    ServiceRowsSingleton(h);
  }

  /** The rows of the first i + 1 hosts: those of the first i, then host i's. */
  lemma RowsOfPrefix(hosts: seq<Host>, i: nat)
    requires i < |hosts|
    ensures HostRows(hosts[..i + 1]) == HostRows(hosts[..i]) + [HostRowOf(hosts[i])]
    ensures ServiceRows(hosts[..i + 1]) == ServiceRows(hosts[..i]) + HostServiceRows(hosts[i])
  {
    PrefixSnoc(hosts, i);
    HostRowsSnoc(hosts[..i], hosts[i]);
    ServiceRowsSnoc(hosts[..i], hosts[i]);
  }

  /**
   * Order: the service rows of host i come after those of every earlier host
   * and before those of every later one.
   */
  lemma ServiceRowsSplit(hosts: seq<Host>, i: nat)
    requires i < |hosts|
    ensures ServiceRows(hosts) == ServiceRows(hosts[..i]) + HostServiceRows(hosts[i]) + ServiceRows(hosts[i + 1..])
  {
    SplitAfter(hosts, i);
    PrefixSnoc(hosts, i);
    ServiceRowsSnoc(hosts[..i], hosts[i]);
    ServiceRowsConcat(hosts[..i + 1], hosts[i + 1..]);
  }

  /** The service row of port j of host i, when that port has a service. */
  ghost predicate IsRowOf(hosts: seq<Host>, r: ServiceRow, i: int, j: int) {
    0 <= i < |hosts| && IsPortRowOf(HostRowOf(hosts[i]), hosts[i].ports, r, j)
  }

  /** r is the service row of port j, which has a service, of the host whose values are hr. */
  ghost predicate IsPortRowOf(hr: HostRow, ports: seq<Port>, r: ServiceRow, j: int) {
    0 <= j < |ports| && ports[j].service.Some? && r == ServiceRowOf(hr, ports[j], ports[j].service.value)
  }

  /** Port j of the tail is port j + 1 of the whole. */
  lemma PortRowOfTail(hr: HostRow, ports: seq<Port>, r: ServiceRow, j: int)
    requires ports != [] && 0 <= j
    ensures IsPortRowOf(hr, ports[1..], r, j) <==> IsPortRowOf(hr, ports, r, j + 1)
  {
    if 0 <= j < |ports| - 1 {
      assert ports[1..][j] == ports[j + 1];
    }
  }

  /** A row is among one host's service rows exactly when it is the row of one of its ports that has a service. */
  lemma {:induction false} PortRowsMembership(hr: HostRow, ports: seq<Port>, r: ServiceRow)
    ensures r in PortRows(hr, ports) <==> exists j :: IsPortRowOf(hr, ports, r, j)
  {
    if ports != [] {
      PortRowsMembership(hr, ports[1..], r);
      var rest := PortRows(hr, ports[1..]);
      match ports[0].service {
        case None =>
          assert PortRows(hr, ports) == rest;
        case Some(svc) =>
          assert PortRows(hr, ports) == [ServiceRowOf(hr, ports[0], svc)] + rest;
          if r == ServiceRowOf(hr, ports[0], svc) {
            assert IsPortRowOf(hr, ports, r, 0);
          }
      }
      if r in rest {
        var j :| IsPortRowOf(hr, ports[1..], r, j);
        PortRowOfTail(hr, ports, r, j);
      }
      if exists j :: IsPortRowOf(hr, ports, r, j) {
        var j :| IsPortRowOf(hr, ports, r, j);
        if j > 0 {
          PortRowOfTail(hr, ports, r, j - 1);
        }
      }
    }
  }

  /**
   * A row is among the service rows of a report exactly when it is the row of
   * some port that has a service, projected with its own host's values.
   */
  lemma {:induction false} ServiceRowsMembership(hosts: seq<Host>, r: ServiceRow)
    ensures r in ServiceRows(hosts) <==> exists i, j :: IsRowOf(hosts, r, i, j)
  {
    if hosts != [] {
      ServiceRowsMembership(hosts[1..], r);
      PortRowsMembership(HostRowOf(hosts[0]), hosts[0].ports, r);
      if r in ServiceRows(hosts[1..]) {
        var i, j :| IsRowOf(hosts[1..], r, i, j);
        assert hosts[1..][i] == hosts[i + 1];
        assert IsRowOf(hosts, r, i + 1, j);
      }
      if r in HostServiceRows(hosts[0]) {
        var j :| IsPortRowOf(HostRowOf(hosts[0]), hosts[0].ports, r, j);
        assert IsRowOf(hosts, r, 0, j);
      }
      if exists i, j :: IsRowOf(hosts, r, i, j) {
        var i, j :| IsRowOf(hosts, r, i, j);
        if i > 0 {
          assert hosts[1..][i - 1] == hosts[i];
          assert IsRowOf(hosts[1..], r, i - 1, j);
        }
      }
    }
  }

  /**
   * Every service row of host i repeats host i's own host row values: the
   * same IP, Hostname, Mac, Mac-Vendor and OS as its host row.
   */
  lemma ServiceRowsShareHostRow(hosts: seq<Host>, i: nat, r: ServiceRow)
    requires i < |hosts| && r in HostServiceRows(hosts[i])
    ensures SameHostValues(r, HostRows(hosts)[i])
  {
  }

  /** Rows are never deduplicated: a host that appears twice yields its rows twice. */
  lemma DuplicatesAreKept(h: Host)
    ensures HostRows([h, h]) == [HostRowOf(h), HostRowOf(h)]
    ensures ServiceRows([h, h]) == HostServiceRows(h) + HostServiceRows(h)
  {
    ConcatTail([h], [h]);
    SingletonTail(h);
    ServiceRowsSingleton(h);
  }
}

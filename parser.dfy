/**
 * NmapXMLParser: an object that accumulates host rows and service rows over
 * any number of parse calls, one parsed report per call.
 */
module Parser {
  import opened NmapReport
  import opened Projection
  import opened Rows
  import opened SeqFacts

  class NmapXMLParser {
    /** host_results: one row per host of every report parsed so far. */
    var hostResults: seq<HostRow>
    /** service_results: one row per port with a service, of every report parsed so far. */
    var serviceResults: seq<ServiceRow>

    /** A fresh parser holds no rows. */
    constructor ()
      ensures hostResults == [] && serviceResults == []
    {
      hostResults := [];
      serviceResults := [];
    }

    /**
     * parse: for each host in document order, append its host row; then for
     * each of its ports that has a service, append that port's service row.
     * Rows from earlier calls stay as they are, in front.
     */
    method Parse(doc: Document)
      modifies this
      ensures hostResults == old(hostResults) + HostRows(doc.hosts)
      ensures serviceResults == old(serviceResults) + ServiceRows(doc.hosts)
    {
      var i := 0;
      while i < |doc.hosts|
        invariant 0 <= i <= |doc.hosts|
        invariant hostResults == old(hostResults) + HostRows(doc.hosts[..i])
        invariant serviceResults == old(serviceResults) + ServiceRows(doc.hosts[..i])
      {
        var host := doc.hosts[i];
        var ip := Ip(host);
        var mac := Mac(host);
        var macVendor := MacVendor(host);
        var hostname := Hostname(host);
        var osName := OsName(host);
        var hostRow := HostRow(ip, hostname, mac, macVendor, osName);
        hostResults := hostResults + [hostRow];
        ghost var hostStart := serviceResults;
        var j := 0;
        while j < |host.ports|
          invariant 0 <= j <= |host.ports|
          invariant hostResults == old(hostResults) + HostRows(doc.hosts[..i]) + [hostRow]
          invariant serviceResults == hostStart + PortRows(hostRow, host.ports[..j])
        {
          var port := host.ports[j];
          PortRowsOfPrefix(hostRow, host.ports, j);
          var portid := port.portid;
          var protocol := port.protocol;
          var state := State(port);
          match port.service {
            case None =>
              // a port without a service adds no row
            case Some(svc) =>
              var row := ServiceRow(ip, hostname, mac, macVendor, osName, portid, protocol,
                                    ServiceName(svc), state, svc.tunnel, HttpTitle(port), Info(svc));
              ConcatAssoc(hostStart, PortRows(hostRow, host.ports[..j]), [row]);
              serviceResults := serviceResults + [row];
          }
          j := j + 1;
        }
        WholePrefix(host.ports);
        RowsOfPrefix(doc.hosts, i);
        ConcatAssoc(old(hostResults), HostRows(doc.hosts[..i]), [HostRowOf(doc.hosts[i])]);
        ConcatAssoc(old(serviceResults), ServiceRows(doc.hosts[..i]), HostServiceRows(doc.hosts[i]));
        i := i + 1;
      }
      WholePrefix(doc.hosts);
    }
  }
}

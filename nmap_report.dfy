/**
 * An Nmap XML scan report as the projection sees it, after XML reading.
 * Every attribute the projection reads may be missing from its element, so
 * each one is an Option; every sequence keeps document order.
 */
module NmapReport {
  import opened Optional

  /** An <address> element: its addrtype, addr and vendor attributes. */
  datatype Address = Address(addrtype: Option<string>, addr: Option<string>, vendor: Option<string>)

  /** A <script> child of a <port>: its id and output attributes. */
  datatype Script = Script(id: Option<string>, output: Option<string>)

  /** A <service> element: the attributes the projection reads. */
  datatype Service = Service(
    name: Option<string>,
    conf: Option<string>,
    tunnel: Option<string>,
    product: Option<string>,
    version: Option<string>,
    extrainfo: Option<string>)

  /**
   * A <port> element under <ports>: its portid and protocol attributes, the
   * state attribute of each <state> child, its first <service> child (if
   * any) and its <script> children.
   */
  datatype Port = Port(
    portid: Option<string>,
    protocol: Option<string>,
    states: seq<Option<string>>,
    service: Option<Service>,
    scripts: seq<Script>)

  /**
   * A <host> element: its <address> children, the name attribute of each
   * <hostnames>/<hostname> element, the name attribute of each
   * <os>/<osmatch> element, and its <ports>/<port> elements.
   */
  datatype Host = Host(
    addresses: seq<Address>,
    hostnames: seq<Option<string>>,
    osmatches: seq<Option<string>>,
    ports: seq<Port>)

  /** A whole report: every <host> element in document order. */
  datatype Document = Document(hosts: seq<Host>)
}

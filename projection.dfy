/**
 * The per-field rules of NmapXMLParser#parse: the first-match lookups, the
 * confidence threshold for the service name and the Info pipeline, as
 * functions with their properties. The rows built from them are in Rows.
 */
module Projection {
  import opened Optional
  import opened RubyString
  import opened NmapReport

  // ---------------------------------------------------------------------
  // First-match lookups (at_xpath(...)&.value)
  // ---------------------------------------------------------------------

  /** r is the first present value of xs in order, or None when none is present. */
  ghost predicate IsFirstPresent<T>(xs: seq<Option<T>>, r: Option<T>) {
    if r.None? then forall i :: 0 <= i < |xs| ==> xs[i].None?
    else exists i :: 0 <= i < |xs| && xs[i] == r && forall j :: 0 <= j < i ==> xs[j].None?
  }

  /** At most one value is the first present one. */
  lemma FirstPresentUnique<T>(xs: seq<Option<T>>, a: Option<T>, b: Option<T>)
    requires IsFirstPresent(xs, a) && IsFirstPresent(xs, b)
    ensures a == b
  {
    if a.Some? && b.Some? {
      var i :| 0 <= i < |xs| && xs[i] == a && forall j :: 0 <= j < i ==> xs[j].None?;
      var k :| 0 <= k < |xs| && xs[k] == b && forall j :: 0 <= j < k ==> xs[j].None?;
      assert i == k;
    }
  }

  /** The first present value in document order: the "first match, else none" rule of at_xpath. */
  function FirstPresent<T>(xs: seq<Option<T>>): (r: Option<T>)
    ensures IsFirstPresent(xs, r)
  {
    if xs == [] then None
    else if xs[0].Some? then xs[0]
    else
      var r := FirstPresent(xs[1..]);
      assert r.Some? ==> exists i :: 0 <= i < |xs| && xs[i] == r && forall j :: 0 <= j < i ==> xs[j].None? by {
        if r.Some? {
          var i :| 0 <= i < |xs[1..]| && xs[1..][i] == r && forall j :: 0 <= j < i ==> xs[1..][j].None?;
          assert forall j :: 0 <= j < i + 1 ==> xs[j].None? by {
            forall j | 0 <= j < i + 1 ensures xs[j].None? { if j > 0 { assert xs[j] == xs[1..][j - 1]; } }
          }
        }
      }
      assert r.None? ==> forall i :: 0 <= i < |xs| ==> xs[i].None? by {
        if r.None? {
          forall i | 0 <= i < |xs| ensures xs[i].None? { if i > 0 { assert xs[i] == xs[1..][i - 1]; } }
        }
      }
      r
  }

  /** The two attributes read from an <address> element. */
  datatype AddressAttr = Addr | Vendor

  function AttrOf(a: Address, attr: AddressAttr): Option<string> {
    match attr
    case Addr => a.addr
    case Vendor => a.vendor
  }

  /** a matches address[@addrtype=kind] and carries the attribute attr. */
  predicate Carries(a: Address, kind: string, attr: AddressAttr) {
    a.addrtype == Some(kind) && AttrOf(a, attr).Some?
  }

  /** r is the attr of the first address of type kind that carries attr, or None when none does. */
  ghost predicate IsFirstCarried(addrs: seq<Address>, kind: string, attr: AddressAttr, r: Option<string>) {
    if r.None? then forall i :: 0 <= i < |addrs| ==> !Carries(addrs[i], kind, attr)
    else exists i :: 0 <= i < |addrs| && Carries(addrs[i], kind, attr) && AttrOf(addrs[i], attr) == r
                     && forall j :: 0 <= j < i ==> !Carries(addrs[j], kind, attr)
  }

  /**
   * address[@addrtype=kind]/@attr: the attribute of the first address that
   * has that addrtype and carries the attribute, or None when there is none.
   */
  function FirstAddressAttr(addrs: seq<Address>, kind: string, attr: AddressAttr): (r: Option<string>)
    ensures r.None? <==> forall i :: 0 <= i < |addrs| ==> !Carries(addrs[i], kind, attr)
    ensures r.Some? ==> exists i :: 0 <= i < |addrs| && Carries(addrs[i], kind, attr) && AttrOf(addrs[i], attr) == r
                                    && forall j :: 0 <= j < i ==> !Carries(addrs[j], kind, attr)
  {
    var candidates := seq(|addrs|, i requires 0 <= i < |addrs| =>
                          if addrs[i].addrtype == Some(kind) then AttrOf(addrs[i], attr) else None);
    assert forall i :: 0 <= i < |addrs| ==> (candidates[i].Some? <==> Carries(addrs[i], kind, attr));
    FirstPresent(candidates)
  }

  /** r is the output of the first script with that id that carries an output, or None when none does. */
  ghost predicate IsFirstOutput(scripts: seq<Script>, id: string, r: Option<string>) {
    if r.None? then forall i :: 0 <= i < |scripts| ==> !(scripts[i].id == Some(id) && scripts[i].output.Some?)
    else exists i :: 0 <= i < |scripts| && scripts[i].id == Some(id) && scripts[i].output == r
                     && forall j :: 0 <= j < i ==> !(scripts[j].id == Some(id) && scripts[j].output.Some?)
  }

  /**
   * script[@id=id]/@output: the output of the first script with that id that
   * carries an output, or None when there is none.
   */
  function FirstScriptOutput(scripts: seq<Script>, id: string): (r: Option<string>)
    ensures r.None? <==> forall i :: 0 <= i < |scripts| ==> !(scripts[i].id == Some(id) && scripts[i].output.Some?)
    ensures r.Some? ==> exists i :: 0 <= i < |scripts| && scripts[i].id == Some(id) && scripts[i].output == r
                                    && forall j :: 0 <= j < i ==> !(scripts[j].id == Some(id) && scripts[j].output.Some?)
  {
    var candidates := seq(|scripts|, i requires 0 <= i < |scripts| =>
                          if scripts[i].id == Some(id) then scripts[i].output else None);
    assert forall i :: 0 <= i < |scripts| ==>
             (candidates[i].Some? <==> scripts[i].id == Some(id) && scripts[i].output.Some?);
    FirstPresent(candidates)
  }

  // ---------------------------------------------------------------------
  // Host-level values
  // ---------------------------------------------------------------------

  /** address[@addrtype="ipv4"]/@addr */
  function Ip(h: Host): (r: Option<string>)
    ensures IsFirstCarried(h.addresses, "ipv4", Addr, r)
  {
    FirstAddressAttr(h.addresses, "ipv4", Addr)
  }

  /** address[@addrtype="mac"]/@addr */
  function Mac(h: Host): (r: Option<string>)
    ensures IsFirstCarried(h.addresses, "mac", Addr, r)
  {
    FirstAddressAttr(h.addresses, "mac", Addr)
  }

  /** address[@addrtype="mac"]/@vendor, looked up independently of Mac. */
  function MacVendor(h: Host): (r: Option<string>)
    ensures IsFirstCarried(h.addresses, "mac", Vendor, r)
  {
    FirstAddressAttr(h.addresses, "mac", Vendor)
  }

  /** hostnames/hostname/@name, first one only. */
  function Hostname(h: Host): (r: Option<string>)
    ensures IsFirstPresent(h.hostnames, r)
  {
    FirstPresent(h.hostnames)
  }

  /** os/osmatch/@name, first one only. */
  function OsName(h: Host): (r: Option<string>)
    ensures IsFirstPresent(h.osmatches, r)
  {
    FirstPresent(h.osmatches)
  }

  /**
   * Mac and MacVendor are two separate lookups, so they can come from two
   * different mac address elements.
   */
  lemma MacAndVendorFromDifferentElements()
    ensures var h := Host([Address(Some("mac"), Some("AA:BB"), None),
                           Address(Some("mac"), Some("CC:DD"), Some("Acme"))], [], [], []);
            Mac(h) == Some("AA:BB") && MacVendor(h) == Some("Acme")
  {
    var h := Host([Address(Some("mac"), Some("AA:BB"), None),
                   Address(Some("mac"), Some("CC:DD"), Some("Acme"))], [], [], []);
    assert Carries(h.addresses[0], "mac", Addr);
    assert !Carries(h.addresses[0], "mac", Vendor) && Carries(h.addresses[1], "mac", Vendor);
  }

  // ---------------------------------------------------------------------
  // Port- and service-level values
  // ---------------------------------------------------------------------

  /** state/@state */
  function State(p: Port): (r: Option<string>)
    ensures IsFirstPresent(p.states, r)
  {
    FirstPresent(p.states)
  }

  /** script[@id="http-title"]/@output among the port's own script children. */
  function HttpTitle(p: Port): (r: Option<string>)
    ensures IsFirstOutput(p.scripts, "http-title", r)
  {
    FirstScriptOutput(p.scripts, "http-title")
  }

  /** The service confidence at or above which the detected name is reported. */
  const ConfidenceThreshold := 5

  /** service['conf'].to_i, where an absent attribute (nil.to_i) is 0. */
  function Confidence(svc: Service): int {
    match svc.conf
    case None => 0
    case Some(c) => ToI(c)
  }

  /** The reported service name: the detected name when confident enough, else "N/A". */
  function ServiceName(svc: Service): Option<string> {
    if Confidence(svc) >= ConfidenceThreshold then svc.name else Some("N/A")
  }

  /** A decimal confidence n (possibly followed by non-digit text) decides the name by n >= ConfidenceThreshold. */
  lemma ServiceNameOfDecimalConf(svc: Service, n: nat, rest: string)
    requires rest == "" || !IsDigit(rest[0])
    requires svc.conf == Some(Decimal(n) + rest)
    ensures ServiceName(svc) == if n >= ConfidenceThreshold then svc.name else Some("N/A")
  {
    ToIOfDecimal(n, rest);
  }

  /** A negative confidence always gives "N/A". */
  lemma ServiceNameOfNegativeConf(svc: Service, n: nat, rest: string)
    requires rest == "" || !IsDigit(rest[0])
    requires svc.conf == Some("-" + (Decimal(n) + rest))
    ensures ServiceName(svc) == Some("N/A")
  {
    ToIOfDecimal(n, rest);
  }

  /**
   * A confidence that, after leading white space, has no digit where the
   * number would start ("v5", "- 5", "+-5") gives "N/A", whatever digits
   * come later.
   */
  lemma ServiceNameOfNonNumericConf(svc: Service, ws: string, t: string)
    requires forall i :: 0 <= i < |ws| ==> IsLeadingSpace(ws[i])
    requires t == "" || (!IsDigit(t[0]) && !IsLeadingSpace(t[0]))
    requires t != "" && (t[0] == '-' || t[0] == '+') ==> (t[1..] == "" || !IsDigit(t[1]))
    requires svc.conf == Some(ws + t)
    ensures ServiceName(svc) == Some("N/A")
  {
    ToISkipsLeadingSpace(ws, t);
    if t != "" && (t[0] == '-' || t[0] == '+') {
      assert t == [t[0]] + t[1..];
      ToIOfNoLeadingDigit(t[1..]);
    } else {
      ToIOfNoLeadingDigit(t);
    }
  }

  /** An absent confidence, or one without any digit, gives "N/A". */
  lemma ServiceNameWithoutNumber(svc: Service)
    requires svc.conf.None? || forall i :: 0 <= i < |svc.conf.value| ==> !IsDigit(svc.conf.value[i])
    ensures ServiceName(svc) == Some("N/A")
  {
    if svc.conf.Some? {
      ToIWithoutDigits(svc.conf.value);
    }
  }

  /** compact.reject(&:empty?): the present, non-empty values, in order. */
  function Kept(xs: seq<Option<string>>): (r: seq<string>)
    ensures |r| <= |xs|
  {
    if xs == [] then []
    else if xs[0].Some? && xs[0].value != "" then [xs[0].value] + Kept(xs[1..])
    else Kept(xs[1..])
  }

  /** The kept values are exactly the present, non-empty ones. */
  lemma {:induction false} KeptMembers(xs: seq<Option<string>>)
    ensures forall s :: s in Kept(xs) <==> s != "" && Some(s) in xs
  {
    if xs != [] {
      KeptMembers(xs[1..]);
      assert xs == [xs[0]] + xs[1..];
    }
  }

  /** compact.reject keeps order: filtering a concatenation filters each part in turn. */
  lemma {:induction false} KeptConcat(a: seq<Option<string>>, b: seq<Option<string>>)
    ensures Kept(a + b) == Kept(a) + Kept(b)
  {
    if a == [] {
      assert a + b == b;
    } else {
      assert (a + b)[0] == a[0];
      assert (a + b)[1..] == a[1..] + b;
      KeptConcat(a[1..], b);
    }
  }

  /** One value is kept exactly when it is present and non-empty. */
  lemma KeptSingleton(o: Option<string>)
    ensures Kept([o]) == if o.Some? && o.value != "" then [o.value] else []
  {
    assert [o][1..] == [];
  }

  /** The three attributes the Info column is built from, in order. */
  function InfoParts(svc: Service): seq<Option<string>> {
    [svc.product, svc.version, svc.extrainfo]
  }

  /** [product, version, extrainfo].compact.reject(&:empty?).join(' ').strip */
  function Info(svc: Service): string {
    Strip(JoinSpace(Kept(InfoParts(svc))))
  }

  /**
   * The values joined into Info, in order: product, then version, then
   * extrainfo, each one only when present and non-empty.
   */
  lemma InfoKeptInOrder(svc: Service)
    ensures Kept(InfoParts(svc)) == Kept([svc.product]) + Kept([svc.version]) + Kept([svc.extrainfo])
  {
    assert InfoParts(svc) == [svc.product] + [svc.version] + [svc.extrainfo];
    KeptConcat([svc.product] + [svc.version], [svc.extrainfo]);
    KeptConcat([svc.product], [svc.version]);
  }

  /** Absent, or made only of strip characters. */
  predicate Blank(o: Option<string>) {
    o.None? || AllStripSpace(o.value)
  }

  /** Every kept value is blank exactly when every value is absent or blank. */
  lemma KeptAllBlank(xs: seq<Option<string>>)
    ensures (forall s :: s in Kept(xs) ==> AllStripSpace(s)) <==> (forall o :: o in xs ==> Blank(o))
  {
    KeptMembers(xs);
  }

  /** The compact-reject-join-strip pipeline yields "" exactly when every value is absent or blank. */
  lemma PipelineEmptyIff(xs: seq<Option<string>>)
    ensures Strip(JoinSpace(Kept(xs))) == "" <==> forall i :: 0 <= i < |xs| ==> Blank(xs[i])
  {
    var kept := Kept(xs);
    StripEmptyIff(JoinSpace(kept));
    JoinSpaceAllStripSpace(kept);
    KeptAllBlank(xs);
  }

  /** Info is empty exactly when each of product, version and extrainfo is absent or blank. */
  lemma InfoEmptyIff(svc: Service)
    ensures Info(svc) == "" <==> Blank(svc.product) && Blank(svc.version) && Blank(svc.extrainfo)
  {
    var parts := InfoParts(svc);
    PipelineEmptyIff(parts);
    assert |parts| == 3 && parts[0] == svc.product && parts[1] == svc.version && parts[2] == svc.extrainfo;
  }

  /** In particular: all three absent or empty gives the empty string. */
  lemma InfoOfNothing(svc: Service)
    requires svc.product in {None, Some("")} && svc.version in {None, Some("")} && svc.extrainfo in {None, Some("")}
    ensures Info(svc) == ""
  {
    InfoEmptyIff(svc);
  }

  /** When the present values have no outer white space, Info is exactly their space-joined list. */
  lemma InfoOfTrimmedParts(svc: Service)
    requires forall o :: o in InfoParts(svc) && o.Some? ==> Trimmed(o.value)
    ensures Info(svc) == JoinSpace(Kept(InfoParts(svc)))
  {
    var kept := Kept(InfoParts(svc));
    KeptMembers(InfoParts(svc));
    forall k | 0 <= k < |kept| ensures kept[k] != "" && Trimmed(kept[k]) {
      assert kept[k] in kept;
    }
    JoinSpaceTrimmed(kept);
    StripOfTrimmed(JoinSpace(kept));
  }

  /** With all three present, non-empty and trimmed, Info is product, version and extrainfo, in that order, one space apart. */
  lemma InfoOfThreeParts(svc: Service)
    requires svc.product.Some? && svc.version.Some? && svc.extrainfo.Some?
    requires svc.product.value != "" && svc.version.value != "" && svc.extrainfo.value != ""
    requires Trimmed(svc.product.value) && Trimmed(svc.version.value) && Trimmed(svc.extrainfo.value)
    ensures Info(svc) == svc.product.value + " " + svc.version.value + " " + svc.extrainfo.value
  {
    var a, b, c := svc.product.value, svc.version.value, svc.extrainfo.value;
    InfoOfTrimmedParts(svc);
    InfoKeptInOrder(svc);
    KeptSingleton(svc.product);
    KeptSingleton(svc.version);
    KeptSingleton(svc.extrainfo);
    assert Kept(InfoParts(svc)) == [a, b] + [c];
    JoinSpaceSnoc([a], b);
    assert [a] + [b] == [a, b];
    JoinSpaceSnoc([a, b], c);
  }

  /**
   * Strip removes only the padding at the very ends of Info: white space
   * before product and after extrainfo goes, everything in between (the
   * inner white space of each part included) stays.
   */
  lemma InfoOfPaddedOuterParts(svc: Service, a: string, p: string, v: string, e: string, b: string)
    requires AllStripSpace(a) && AllStripSpace(b)
    requires p != "" && !IsStripSpace(p[0]) && v != "" && e != "" && !IsStripSpace(e[|e| - 1])
    requires svc.product == Some(a + p) && svc.version == Some(v) && svc.extrainfo == Some(e + b)
    ensures Info(svc) == p + " " + v + " " + e
  {
    InfoKeptInOrder(svc);
    KeptSingleton(svc.product);
    KeptSingleton(svc.version);
    KeptSingleton(svc.extrainfo);
    assert Kept(InfoParts(svc)) == [a + p, v, e + b];
    StripOfPaddedJoin(a, p, v, e, b);
  }

  /** A lone product with white space around it gives Info without that white space. */
  lemma InfoOfPaddedProduct(svc: Service, a: string, t: string, b: string)
    requires AllStripSpace(a) && AllStripSpace(b) && Trimmed(t)
    requires svc.product == Some(a + t + b)
    requires svc.version in {None, Some("")} && svc.extrainfo in {None, Some("")}
    ensures Info(svc) == t
  {
    InfoKeptInOrder(svc);
    KeptSingleton(svc.product);
    KeptSingleton(svc.version);
    KeptSingleton(svc.extrainfo);
    if a + t + b == "" {
      assert Kept(InfoParts(svc)) == [];
      assert t == "";
    } else {
      assert Kept(InfoParts(svc)) == [a + t + b];
      StripOfPadded(a, t, b);
    }
  }

  /** Two non-empty values followed by an empty one keep the two, in order. */
  lemma KeptOfTwoThenEmpty(a: string, b: string)
    requires a != "" && b != ""
    ensures Kept([Some(a), Some(b), Some("")]) == [a, b]
  {
    var xs := [Some(a), Some(b), Some("")];
    assert xs[1..] == [Some(b), Some("")];
    assert xs[1..][1..] == [Some("")];
    assert Kept([Some("")]) == [] by { assert [Some("")][1..] == []; }
  }

  /** product "Apache httpd", version "2.4.41" and an empty extrainfo give "Apache httpd 2.4.41". */
  lemma InfoExample(svc: Service)
    requires svc.product == Some("Apache httpd") && svc.version == Some("2.4.41") && svc.extrainfo == Some("")
    ensures Info(svc) == "Apache httpd 2.4.41"
  {
    InfoOfTrimmedParts(svc);
    KeptOfTwoThenEmpty("Apache httpd", "2.4.41");
    assert JoinSpace(["Apache httpd", "2.4.41"]) == "Apache httpd" + " " + "2.4.41" by {
      assert ["Apache httpd", "2.4.41"][1..] == ["2.4.41"];
    }
  }
}

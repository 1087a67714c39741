/**
 Services and endpoints as the load balancer reads them, and the backends they call for.
 */
module Cluster {
  import opened Strings
  import opened Decimal

  /** Port numbers fit `uint16`: the Kubernetes API admits no others. */
  type Port = p: int | 0 <= p <= 65535

  datatype Protocol = TCP | UDP

  /** `net.IP` up to `IP.Equal`; `net.ParseIP` returns `NilIP` on text it rejects. */
  datatype IP = NilIP | IP(value: nat)

  /** `net.ParseIP` and `IP.String`, which the repository takes from Go's library. */
  datatype AddrText = AddrText(parse: string -> IP, show: IP -> string) {
    /** What the model asks of the library: reading a printed address gives it back. */
    ghost predicate Lawful() { forall ip :: parse(show(ip)) == ip }

    /** `text` is how the library itself would print the address. */
    predicate Canonical(text: string) { show(parse(text)) == text }
  }

  datatype ServicePort = ServicePort(name: string, protocol: Protocol, port: Port)
  datatype Service = Service(namespace: string, name: string, ports: seq<ServicePort>)
  datatype EndpointPort = EndpointPort(name: string, port: Port)
  datatype Subset = Subset(addresses: seq<string>, ports: seq<EndpointPort>)
  datatype Endpoints = Endpoints(namespace: string, name: string, subsets: seq<Subset>)

  datatype VirtualServer = VirtualServer(address: IP, protocol: Protocol, port: Port)
  datatype RealServer = RealServer(address: IP, port: Port)

  /** An endpoint address as text, with the port traffic goes to. */
  datatype Backend = Backend(ip: string, port: Port)

  /** The first port of `svc` with this number, whatever its protocol. */
  function GetTargetPort(port: int, svc: Service): (r: Option<ServicePort>)
    ensures r.None? <==> forall sp | sp in svc.ports :: sp.port != port
    ensures r.Some? ==> exists i | 0 <= i < |svc.ports| ::
        && svc.ports[i] == r.value && r.value.port == port
        && forall j | 0 <= j < i :: svc.ports[j].port != port
  {
    FirstOfNumber(svc.ports, port)
  }

  function FirstOfNumber(ports: seq<ServicePort>, port: int): (r: Option<ServicePort>)
    ensures r.None? <==> forall sp | sp in ports :: sp.port != port
    ensures r.Some? ==> exists i | 0 <= i < |ports| ::
        && ports[i] == r.value && r.value.port == port
        && forall j | 0 <= j < i :: ports[j].port != port
  {
    if ports == [] then None
    else if ports[0].port == port then
      assert ports[0] in ports;
      Some(ports[0])
    else
      var r := FirstOfNumber(ports[1..], port);
      assert forall j | 1 <= j < |ports| :: ports[j] == ports[1..][j - 1];
      assert forall sp :: sp in ports <==> sp == ports[0] || sp in ports[1..];
      assert r.Some? ==> exists i | 1 <= i < |ports| ::
          ports[i] == r.value && forall j | 0 <= j < i :: ports[j].port != port by {
        if r.Some? {
          var k :| 0 <= k < |ports[1..]| && ports[1..][k] == r.value
                   && forall j | 0 <= j < k :: ports[1..][j].port != port;
          assert ports[k + 1] == r.value;
          assert forall j | 1 <= j < k + 1 :: ports[j].port == ports[1..][j - 1].port != port;
        }
      }
      r
  }

  predicate FirstNamed(ports: seq<EndpointPort>, name: string, i: nat) {
    i < |ports| && ports[i].name == name && forall j | 0 <= j < i :: ports[j].name != name
  }

  /** The number of the first subset port called `name`; 0 when there is none. */
  function GetTargetIntPort(name: string, ports: seq<EndpointPort>): (r: Port)
    ensures (forall ep | ep in ports :: ep.name != name) ==> r == 0
    ensures forall i: nat | FirstNamed(ports, name, i) :: r == ports[i].port
    ensures r != 0 ==> exists i: nat :: FirstNamed(ports, name, i)
  {
    if ports == [] then 0
    else if ports[0].name == name then
      assert FirstNamed(ports, name, 0);
      ports[0].port
    else
      var r := GetTargetIntPort(name, ports[1..]);
      NamedLater(name, ports);
      r
  }

  lemma NamedLater(name: string, ports: seq<EndpointPort>)
    requires ports != [] && ports[0].name != name
    ensures forall i: nat | FirstNamed(ports, name, i) :: i > 0 && FirstNamed(ports[1..], name, i - 1)
    ensures (exists i: nat :: FirstNamed(ports[1..], name, i)) ==> exists i: nat :: FirstNamed(ports, name, i)
    ensures (forall ep | ep in ports :: ep.name != name) ==> forall ep | ep in ports[1..] :: ep.name != name
  {
    if k: nat :| FirstNamed(ports[1..], name, k) {
      assert forall j | 1 <= j < k + 1 :: ports[j] == ports[1..][j - 1];
      assert FirstNamed(ports, name, k + 1);
    }
  }

  predicate Declares(svc: Service, protocol: Protocol, port: int) {
    exists sp | sp in svc.ports :: sp.protocol == protocol && sp.port == port
  }

  predicate Matches(svc: Service, e: Endpoints) {
    e.namespace == svc.namespace && e.name == svc.name
  }

  // ------------------------------------------------- backends, declaratively

  function SubsetBackends(name: string, ss: Subset): set<Backend> {
    var port := GetTargetIntPort(name, ss.ports);
    if port == 0 then {} else Addressed(ss.addresses, port)
  }

  function Addressed(addresses: seq<string>, port: Port): set<Backend> {
    set a | a in addresses :: Backend(a, port)
  }

  function EndpointsBackends(name: string, e: Endpoints): set<Backend> {
    set ss, b | ss in e.subsets && b in SubsetBackends(name, ss) :: b
  }

  /** What `svc` puts behind port `port`, by the name of its first port of that number. */
  function ServiceBackends(svc: Service, port: int, eps: seq<Endpoints>): set<Backend> {
    var target := GetTargetPort(port, svc);
    if target.None? then {} else NamedBackends(svc, target.value.name, eps)
  }

  function NamedBackends(svc: Service, name: string, eps: seq<Endpoints>): set<Backend> {
    set e, b | e in eps && Matches(svc, e) && b in EndpointsBackends(name, e) :: b
  }

  function ServicesBackends(svcs: seq<Service>, port: int, eps: seq<Endpoints>): set<Backend> {
    set s, b | s in svcs && b in ServiceBackends(s, port, eps) :: b
  }

  function ToRealServer(net: AddrText, b: Backend): RealServer { RealServer(net.parse(b.ip), b.port) }

  function RealServers(net: AddrText, bs: set<Backend>): set<RealServer> { set b | b in bs :: ToRealServer(net, b) }

  ghost predicate AllCanonical(net: AddrText, bs: set<Backend>) { forall b | b in bs :: net.Canonical(b.ip) }

  /** Every address appears, perhaps among other spellings, as the library itself would print it. */
  ghost predicate Covered(net: AddrText, bs: set<Backend>) {
    forall b | b in bs :: Backend(net.show(net.parse(b.ip)), b.port) in bs
  }

  type Table = map<VirtualServer, set<RealServer>>

  /** Everything a reconciliation is computed from. */
  datatype World = World(svcs: seq<Service>, eps: seq<Endpoints>, vip: IP, net: AddrText) {

    function Backends(protocol: Protocol, port: int): set<Backend> {
      set s, b | s in svcs && Declares(s, protocol, port) && b in ServiceBackends(s, port, eps) :: b
    }

    function VirtualServers(): set<VirtualServer> {
      set s, sp | s in svcs && sp in s.ports :: VirtualServer(vip, sp.protocol, sp.port)
    }

    /** The IPVS table the services and endpoints call for. */
    function Desired(): Table {
      map vs | vs in VirtualServers() :: RealServers(net, Backends(vs.protocol, vs.port))
    }

    /** Every endpoint address some virtual server calls for is spelt canonically. */
    ghost predicate CanonicalBackends() {
      forall vs | vs in VirtualServers() :: AllCanonical(net, Backends(vs.protocol, vs.port))
    }

    /** Every endpoint address some virtual server calls for is also there in its canonical spelling. */
    ghost predicate CoveredBackends() {
      forall vs | vs in VirtualServers() :: Covered(net, Backends(vs.protocol, vs.port))
    }

    lemma VirtualServersDeclared(vs: VirtualServer)
      ensures vs in VirtualServers() <==>
              vs.address == vip && exists s | s in svcs :: Declares(s, vs.protocol, vs.port)
    {
      if vs.address == vip && exists s | s in svcs :: Declares(s, vs.protocol, vs.port) {
        var s :| s in svcs && Declares(s, vs.protocol, vs.port);
        var sp :| sp in s.ports && sp.protocol == vs.protocol && sp.port == vs.port;
        assert vs == VirtualServer(vip, sp.protocol, sp.port);
      }
    }
  }

  // ------------------------------------------------- the goal, field by field

  /** Service `s` declares the protocol and the number, and its port `k` is the first of that number. */
  ghost predicate Serves(s: Service, q: Protocol, p: Port, k: nat) {
    && (exists sp | sp in s.ports :: sp.protocol == q && sp.port == p)
    && k < |s.ports| && s.ports[k].port == p && forall j | 0 <= j < k :: s.ports[j].port != p
  }

  /** Address `a` of subset `ss` of `e`, at the subset's first port of the name of `s`'s port `k`, which is port `i`. */
  ghost predicate Reaches(s: Service, k: nat, e: Endpoints, ss: Subset, a: string, i: nat)
    requires k < |s.ports|
  {
    && e.namespace == s.namespace && e.name == s.name && ss in e.subsets && a in ss.addresses
    && i < |ss.ports| && ss.ports[i].name == s.ports[k].name && ss.ports[i].port != 0
    && forall j | 0 <= j < i :: ss.ports[j].name != s.ports[k].name
  }

  /** One of `svcs` leads traffic for the port to the real server. */
  ghost predicate Leads(svcs: seq<Service>, eps: seq<Endpoints>, net: AddrText, q: Protocol, p: Port, rs: RealServer) {
    exists s, k: nat, e, ss, a, i: nat ::
      && s in svcs && Serves(s, q, p, k) && e in eps && Reaches(s, k, e, ss, a, i)
      && rs == RealServer(net.parse(a), ss.ports[i].port)
  }

  lemma SubsetMember(name: string, ss: Subset, b: Backend)
    ensures b in SubsetBackends(name, ss) <==>
              && b.ip in ss.addresses && b.port != 0
              && exists i: nat :: FirstNamed(ss.ports, name, i) && ss.ports[i].port == b.port
  {
    var r := GetTargetIntPort(name, ss.ports);
    hide GetTargetIntPort;
    if r != 0 {
      var i: nat :| FirstNamed(ss.ports, name, i);
    }
  }

  /** A service's backends, field by field. */
  lemma BackendMember(s: Service, q: Protocol, p: Port, eps: seq<Endpoints>, b: Backend)
    requires exists sp | sp in s.ports :: sp.protocol == q && sp.port == p
    ensures b in ServiceBackends(s, p, eps) <==>
              exists k: nat, e, ss, i: nat ::
                Serves(s, q, p, k) && e in eps && Reaches(s, k, e, ss, b.ip, i) && ss.ports[i].port == b.port
  {
    hide FirstOfNumber;
    hide SubsetBackends;
    var k: nat :| k < |s.ports| && s.ports[k] == GetTargetPort(p, s).value && s.ports[k].port == p
                  && forall j | 0 <= j < k :: s.ports[j].port != p;
    var name := s.ports[k].name;
    assert Serves(s, q, p, k);
    if b in ServiceBackends(s, p, eps) {
      var e :| e in eps && Matches(s, e) && b in EndpointsBackends(name, e);
      var ss :| ss in e.subsets && b in SubsetBackends(name, ss);
      SubsetMember(name, ss, b);
      var i: nat :| FirstNamed(ss.ports, name, i) && ss.ports[i].port == b.port;
      assert Reaches(s, k, e, ss, b.ip, i);
    }
    if k': nat, e, ss, i: nat :|
        Serves(s, q, p, k') && e in eps && Reaches(s, k', e, ss, b.ip, i) && ss.ports[i].port == b.port {
      assert k' == k;
      assert FirstNamed(ss.ports, name, i);
      SubsetMember(name, ss, b);
      assert b in EndpointsBackends(name, e);
      assert Matches(s, e);
    }
  }

  /**
   What the goal is, said by the fields alone: a virtual server at the VIP for each declared protocol and number,
   and behind it every address of every matching subset, at the first port of the right name.
   */
  lemma DesiredMember(svcs: seq<Service>, eps: seq<Endpoints>, vip: IP, net: AddrText, vs: VirtualServer)
    ensures vs in World(svcs, eps, vip, net).Desired() <==>
              && vs.address == vip
              && exists s, sp | s in svcs && sp in s.ports :: sp.protocol == vs.protocol && sp.port == vs.port
    ensures vs in World(svcs, eps, vip, net).Desired() ==> forall rs ::
              rs in World(svcs, eps, vip, net).Desired()[vs] <==> Leads(svcs, eps, net, vs.protocol, vs.port, rs)
  {
    var w := World(svcs, eps, vip, net);
    hide ServiceBackends;
    if vs.address == vip {
      if s, sp :| s in svcs && sp in s.ports && sp.protocol == vs.protocol && sp.port == vs.port {
        assert vs == VirtualServer(vip, sp.protocol, sp.port);
      }
    }
    forall rs | vs in w.Desired()
      ensures rs in w.Desired()[vs] <==> Leads(svcs, eps, net, vs.protocol, vs.port, rs)
    {
      RealMember(w, vs.protocol, vs.port, rs);
    }
  }

  lemma RealMember(w: World, q: Protocol, p: Port, rs: RealServer)
    ensures rs in RealServers(w.net, w.Backends(q, p)) <==> Leads(w.svcs, w.eps, w.net, q, p, rs)
  {
    hide ServiceBackends;
    if rs in RealServers(w.net, w.Backends(q, p)) {
      var b :| b in w.Backends(q, p) && ToRealServer(w.net, b) == rs;
      var s :| s in w.svcs && Declares(s, q, p) && b in ServiceBackends(s, p, w.eps);
      BackendMember(s, q, p, w.eps, b);
      var k: nat, e, ss, i: nat :|
        Serves(s, q, p, k) && e in w.eps && Reaches(s, k, e, ss, b.ip, i) && ss.ports[i].port == b.port;
      assert rs == RealServer(w.net.parse(b.ip), ss.ports[i].port);
    }
    if Leads(w.svcs, w.eps, w.net, q, p, rs) {
      var s, k: nat, e, ss, a, i: nat :|
        && s in w.svcs && Serves(s, q, p, k) && e in w.eps && Reaches(s, k, e, ss, a, i)
        && rs == RealServer(w.net.parse(a), ss.ports[i].port);
      var b := Backend(a, ss.ports[i].port);
      BackendMember(s, q, p, w.eps, b);
      assert b in w.Backends(q, p) && ToRealServer(w.net, b) == rs;
    }
  }

  ghost predicate SameElements<T(!new)>(a: seq<T>, b: seq<T>) {
    forall x :: x in a <==> x in b
  }

  /** The goal does not depend on the order, or on repetitions, of services and endpoints. */
  lemma DesiredOrderIndependent(w: World, w': World)
    requires SameElements(w.svcs, w'.svcs) && SameElements(w.eps, w'.eps)
    requires w.vip == w'.vip && w.net == w'.net
    ensures w.Desired() == w'.Desired()
  {
    assert w.VirtualServers() == w'.VirtualServers();
    forall s, port: int ensures ServiceBackends(s, port, w.eps) == ServiceBackends(s, port, w'.eps) {
      var target := GetTargetPort(port, s);
      if target.Some? {
        var n := target.value.name;
        assert NamedBackends(s, n, w.eps) == NamedBackends(s, n, w'.eps);
      }
    }
    forall vs | vs in w.VirtualServers() ensures w.Desired()[vs] == w'.Desired()[vs] {
      assert w.Backends(vs.protocol, vs.port) == w'.Backends(vs.protocol, vs.port);
    }
  }

  lemma PermutationSameElements<T(!new)>(a: seq<T>, b: seq<T>)
    requires multiset(a) == multiset(b)
    ensures SameElements(a, b)
  {
    forall x ensures x in a <==> x in b { assert x in a <==> x in multiset(a); }
  }

  /** One service and one endpoint, whose address is spelt otherwise than the library prints it. */
  function Respelt(ip: string, vip: IP, net: AddrText): World {
    World([Service("default", "web", [ServicePort("http", TCP, 80)])],
          [OneEndpoint("default", "web", ip, "http", 8080)], vip, net)
  }

  /** One endpoints object with one address and one port. */
  function OneEndpoint(namespace: string, name: string, ip: string, portName: string, port: Port): Endpoints {
    Endpoints(namespace, name, [Subset([ip], [EndpointPort(portName, port)])])
  }

  lemma OneSubset(ip: string, portName: string, port: Port, wanted: string)
    requires port != 0
    ensures SubsetBackends(wanted, Subset([ip], [EndpointPort(portName, port)])) ==
              if wanted == portName then {Backend(ip, port)} else {}
  {
    var ports := [EndpointPort(portName, port)];
    assert ports[0] == EndpointPort(portName, port);
    if wanted == portName { assert FirstNamed(ports, wanted, 0); }
  }

  lemma OneEndpointBackends(namespace: string, name: string, ip: string, portName: string, port: Port, wanted: string)
    requires port != 0
    ensures EndpointsBackends(wanted, OneEndpoint(namespace, name, ip, portName, port)) ==
              if wanted == portName then {Backend(ip, port)} else {}
  {
    hide SubsetBackends;
    OneSubset(ip, portName, port, wanted);
    var e := OneEndpoint(namespace, name, ip, portName, port);
    assert e.subsets[0] in e.subsets;
  }

  lemma OneNamed(svc: Service, ip: string, portName: string, port: Port, wanted: string)
    requires port != 0
    ensures NamedBackends(svc, wanted, [OneEndpoint(svc.namespace, svc.name, ip, portName, port)]) ==
              if wanted == portName then {Backend(ip, port)} else {}
  {
    hide EndpointsBackends;
    OneEndpointBackends(svc.namespace, svc.name, ip, portName, port, wanted);
    var e := OneEndpoint(svc.namespace, svc.name, ip, portName, port);
    assert [e][0] in [e] && Matches(svc, e);
  }

  lemma RespeltUncovered(ip: string, vip: IP, net: AddrText)
    requires !net.Canonical(ip)
    ensures !Respelt(ip, vip, net).CoveredBackends()
  {
    hide NamedBackends;
    var w := Respelt(ip, vip, net);
    var svc, b := w.svcs[0], Backend(ip, 8080);
    assert svc.ports[0] in svc.ports && svc in w.svcs;
    assert VirtualServer(vip, TCP, 80) in w.VirtualServers();
    OneNamed(svc, ip, "http", 8080, "http");
    assert ServiceBackends(svc, 80, w.eps) == {b};
    hide ServiceBackends;
    assert w.Backends(TCP, 80) == {b} by { assert Declares(svc, TCP, 80); }
  }

  // ------------------------------------------------- protocols

  /** The first port with this protocol and number. */
  function FirstOfProtocol(ports: seq<ServicePort>, protocol: Protocol, port: int): (r: Option<ServicePort>)
    ensures r.None? <==> forall sp | sp in ports :: !(sp.protocol == protocol && sp.port == port)
    ensures r.Some? ==> r.value in ports && r.value.protocol == protocol && r.value.port == port
  {
    if ports == [] then None
    else if ports[0].protocol == protocol && ports[0].port == port then Some(ports[0])
    else FirstOfProtocol(ports[1..], protocol, port)
  }

  /**
   `GetTargetPort` looks at the number alone. A service's backends are those of the port it
   declares for the protocol, whatever the endpoints, exactly when the first port of the
   number and the first port of number and protocol carry the same name.
   */
  lemma ProtocolBackends(svc: Service, protocol: Protocol, port: Port)
    requires Declares(svc, protocol, port)
    ensures GetTargetPort(port, svc).Some? && FirstOfProtocol(svc.ports, protocol, port).Some?
    ensures (forall eps :: ServiceBackends(svc, port, eps)
                           == NamedBackends(svc, FirstOfProtocol(svc.ports, protocol, port).value.name, eps))
            <==> GetTargetPort(port, svc).value.name == FirstOfProtocol(svc.ports, protocol, port).value.name
  {
    var picked, meant := GetTargetPort(port, svc).value.name, FirstOfProtocol(svc.ports, protocol, port).value.name;
    hide NamedBackends;
    hide FirstOfProtocol;
    if picked != meant {
      var eps := [OneEndpoint(svc.namespace, svc.name, "10.0.0.1", picked, 80)];
      OneNamed(svc, "10.0.0.1", picked, 80, picked);
      OneNamed(svc, "10.0.0.1", picked, 80, meant);
      assert ServiceBackends(svc, port, eps) != NamedBackends(svc, meant, eps);
    }
  }

  /** No number used for two protocols is enough for the names to agree. */
  lemma {:induction false} OneProtocolPerNumber(ports: seq<ServicePort>, protocol: Protocol, port: int)
    requires forall x, y | x in ports && y in ports && x.port == y.port :: x.protocol == y.protocol
    requires exists sp | sp in ports :: sp.protocol == protocol && sp.port == port
    ensures FirstOfNumber(ports, port) == FirstOfProtocol(ports, protocol, port)
  {
    if ports[0].port == port {
      assert ports[0] in ports;
    } else {
      OneProtocolPerNumber(ports[1..], protocol, port);
    }
  }

  // ------------------------------------------------- keys

  /** The text a backend is filed under: `%s:%d`. */
  function Key(ip: string, port: Port): string { ip + ":" + Digits(port) }

  lemma KeyInjective(ip: string, port: Port, ip': string, port': Port)
    requires Key(ip, port) == Key(ip', port')
    ensures ip == ip' && port == port'
  {
    DigitsFreeOf(port, ':');
    DigitsFreeOf(port', ':');
    LastSeparator(ip, Digits(port), ip', Digits(port'), ':');
    DigitsInjective(port, port');
  }

  /** `m` holds exactly the backends `bs`, each under its key, addresses parsed. */
  ghost predicate Represents(m: map<string, RealServer>, bs: set<Backend>, net: AddrText) {
    && m.Keys == (set b | b in bs :: Key(b.ip, b.port))
    && forall b | b in bs :: m[Key(b.ip, b.port)] == ToRealServer(net, b)
  }

  lemma RepresentsAdd(m: map<string, RealServer>, bs: set<Backend>, net: AddrText, b: Backend)
    requires Represents(m, bs, net)
    ensures Represents(m[Key(b.ip, b.port) := ToRealServer(net, b)], bs + {b}, net)
  {
    var m' := m[Key(b.ip, b.port) := ToRealServer(net, b)];
    assert m'.Keys == m.Keys + {Key(b.ip, b.port)};
    forall c | c in bs + {b} ensures m'[Key(c.ip, c.port)] == ToRealServer(net, c) {
      if Key(c.ip, c.port) == Key(b.ip, b.port) {
        KeyInjective(c.ip, c.port, b.ip, b.port);
      }
    }
  }
}

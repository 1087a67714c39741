/**
 `LVSAdaptor.Build`: reconcile the IPVS table and the ipset with the services and endpoints.
 */
module Adaptor {
  import opened Strings
  import Decimal
  import opened Cluster
  import Ipvs
  import Ipset

  type EndpointsMap = map<string, map<string, seq<Endpoints>>>
  /** One map per protocol, from port number to the services that declare it. */
  type PortMaps = seq<map<Port, seq<Service>>>

  /** `protolcolIndex`. */
  function Index(protocol: Protocol): (i: nat)
    ensures i < 2
  {
    if protocol == UDP then 1 else 0
  }

  // ------------------------------------------------- the two maps Build works from

  /** The services left to handle are those of the virtual servers in `left`. */
  ghost predicate PortsFor(ports: PortMaps, w: World, left: set<VirtualServer>) {
    && |ports| == 2
    && (forall q, p: Port :: p in ports[Index(q)] <==> VirtualServer(w.vip, q, p) in left)
    && forall q, p | p in ports[Index(q)] ::
         forall s :: s in ports[Index(q)][p] <==> s in w.svcs && Declares(s, q, p)
  }

  ghost predicate HasSlots(m: EndpointsMap, svcs: seq<Service>) {
    forall s | s in svcs :: s.namespace in m && s.name in m[s.namespace]
  }

  /** Every slot of `m` holds the endpoints of its namespace and name. */
  ghost predicate SlotsHold(m: EndpointsMap, eps: seq<Endpoints>) {
    forall ns, n | ns in m && n in m[ns] ::
      forall e :: e in m[ns][n] <==> e in eps && e.namespace == ns && e.name == n
  }

  method GroupServices(ghost w: World, svcs: seq<Service>) returns (m: EndpointsMap, ports: PortMaps)
    requires svcs == w.svcs
    ensures HasSlots(m, svcs) && SlotsHold(m, [])
    ensures PortsFor(ports, w, w.VirtualServers())
  {
    m, ports := map[], [map[], map[]];
    for i := 0 to |svcs|
      invariant HasSlots(m, svcs[..i]) && SlotsHold(m, [])
      invariant PortsFor(ports, w.(svcs := svcs[..i]), w.(svcs := svcs[..i]).VirtualServers())
    {
      var svc := svcs[i];
      if svc.namespace !in m {
        m := m[svc.namespace := map[]];
      }
      m := m[svc.namespace := m[svc.namespace][svc.name := []]];
      assert svcs[..i + 1] == svcs[..i] + [svc];
      ports := FileService(w.(svcs := svcs[..i]), ports, svc);
    }
    assert svcs[..|svcs|] == svcs;
  }

  /** `svc` declares the port among its first `j` ports. */
  ghost predicate DeclaresEarly(svc: Service, j: nat, q: Protocol, p: Port) {
    exists k | 0 <= k < j <= |svc.ports| :: svc.ports[k].protocol == q && svc.ports[k].port == p
  }

  /** `ports` files the services of `w` and the first `j` ports of `svc`. */
  ghost predicate Filed(ports: PortMaps, w: World, svc: Service, j: nat) {
    && |ports| == 2
    && (forall q, p: Port :: p in ports[Index(q)] <==>
         VirtualServer(w.vip, q, p) in w.VirtualServers() || DeclaresEarly(svc, j, q, p))
    && forall q, p | p in ports[Index(q)] :: forall s :: s in ports[Index(q)][p] <==>
         (s in w.svcs && Declares(s, q, p)) || (s == svc && DeclaresEarly(svc, j, q, p))
  }

  /** Line 53: append `svc` to the services of its port. */
  function Append(ports: PortMaps, sp: ServicePort, svc: Service): (r: PortMaps)
    requires |ports| == 2
    ensures |r| == 2
  {
    var i := Index(sp.protocol);
    var filed := if sp.port in ports[i] then ports[i][sp.port] else [];
    var updated: map<Port, seq<Service>> := ports[i][sp.port := filed + [svc]];
    ports[i := updated]
  }

  lemma FiledNone(ports: PortMaps, w: World, svc: Service)
    requires PortsFor(ports, w, w.VirtualServers())
    ensures |ports| == 2 && Filed(ports, w, svc, 0)
  {
  }

  lemma EarlyStep(svc: Service, j: nat, q: Protocol, p: Port)
    requires j < |svc.ports|
    ensures DeclaresEarly(svc, j + 1, q, p) <==>
              DeclaresEarly(svc, j, q, p) || (svc.ports[j].protocol == q && svc.ports[j].port == p)
  {
  }

  lemma AppendAt(ports: PortMaps, sp: ServicePort, svc: Service, q: Protocol, p: Port)
    requires |ports| == 2
    ensures var r, here := Append(ports, sp, svc), sp.protocol == q && sp.port == p;
            && (p in r[Index(q)] <==> here || p in ports[Index(q)])
            && (p in r[Index(q)] && here ==>
                  r[Index(q)][p] == (if p in ports[Index(q)] then ports[Index(q)][p] else []) + [svc])
            && (p in r[Index(q)] && !here ==> r[Index(q)][p] == ports[Index(q)][p])
  {
  }

  /** One port more, at one protocol and number. */
  lemma FiledAt(ports: PortMaps, w: World, svc: Service, j: nat, q: Protocol, p: Port)
    requires |ports| == 2 && j < |svc.ports| && Filed(ports, w, svc, j)
    ensures var r := Append(ports, svc.ports[j], svc);
            && (p in r[Index(q)] <==>
                  VirtualServer(w.vip, q, p) in w.VirtualServers() || DeclaresEarly(svc, j + 1, q, p))
            && (p in r[Index(q)] ==> forall s :: s in r[Index(q)][p] <==>
                 (s in w.svcs && Declares(s, q, p)) || (s == svc && DeclaresEarly(svc, j + 1, q, p)))
  {
    hide Append;
    hide Declares;
    hide DeclaresEarly;
    EarlyStep(svc, j, q, p);
    AppendAt(ports, svc.ports[j], svc, q, p);
    w.VirtualServersDeclared(VirtualServer(w.vip, q, p));
  }

  lemma FiledStep(ports: PortMaps, w: World, svc: Service, j: nat)
    requires |ports| == 2 && j < |svc.ports| && Filed(ports, w, svc, j)
    ensures Filed(Append(ports, svc.ports[j], svc), w, svc, j + 1)
  {
    hide Append;
    hide Declares;
    hide DeclaresEarly;
    forall q, p: Port
      ensures var r := Append(ports, svc.ports[j], svc);
              && (p in r[Index(q)] <==>
                  VirtualServer(w.vip, q, p) in w.VirtualServers() || DeclaresEarly(svc, j + 1, q, p))
              && (p in r[Index(q)] ==> forall s :: s in r[Index(q)][p] <==>
                   (s in w.svcs && Declares(s, q, p)) || (s == svc && DeclaresEarly(svc, j + 1, q, p)))
    {
      FiledAt(ports, w, svc, j, q, p);
    }
  }

  /** Lines 51-54. */
  method FileService(ghost w: World, ports: PortMaps, svc: Service) returns (r: PortMaps)
    requires PortsFor(ports, w, w.VirtualServers())
    ensures PortsFor(r, w.(svcs := w.svcs + [svc]), w.(svcs := w.svcs + [svc]).VirtualServers())
  {
    hide Filed;
    hide PortsFor;
    hide Append;
    r := ports;
    FiledNone(r, w, svc);
    for j := 0 to |svc.ports|
      invariant |r| == 2 && Filed(r, w, svc, j)
    {
      FiledStep(r, w, svc, j);
      r := Append(r, svc.ports[j], svc);
    }
    FiledAll(r, w, svc);
  }

  lemma FiledAll(r: PortMaps, w: World, svc: Service)
    requires Filed(r, w, svc, |svc.ports|)
    ensures PortsFor(r, w.(svcs := w.svcs + [svc]), w.(svcs := w.svcs + [svc]).VirtualServers())
  {
    var w' := w.(svcs := w.svcs + [svc]);
    forall q, p: Port
      ensures DeclaresEarly(svc, |svc.ports|, q, p) <==> Declares(svc, q, p)
      ensures VirtualServer(w.vip, q, p) in w'.VirtualServers() <==>
              VirtualServer(w.vip, q, p) in w.VirtualServers() || Declares(svc, q, p)
    {
      w.VirtualServersDeclared(VirtualServer(w.vip, q, p));
      w'.VirtualServersDeclared(VirtualServer(w.vip, q, p));
    }
  }

  /** Lines 57-67. */
  method AttachEndpoints(slots: EndpointsMap, svcs: seq<Service>, eps: seq<Endpoints>) returns (m: EndpointsMap)
    requires HasSlots(slots, svcs) && SlotsHold(slots, [])
    ensures HasSlots(m, svcs) && SlotsHold(m, eps)
  {
    m := slots;
    for i := 0 to |eps|
      invariant HasSlots(m, svcs) && SlotsHold(m, eps[..i])
    {
      var e := eps[i];
      assert eps[..i + 1] == eps[..i] + [e];
      if e.namespace !in m { continue; }
      if e.name !in m[e.namespace] { continue; }
      m := m[e.namespace := m[e.namespace][e.name := m[e.namespace][e.name] + [e]]];
    }
    assert eps[..|eps|] == eps;
  }

  // ------------------------------------------------- expected real servers

  /** What the first `n` subsets contribute. */
  function EarlySubsets(name: string, subsets: seq<Subset>, n: nat): set<Backend>
    requires n <= |subsets|
  {
    set ss, b | ss in subsets[..n] && b in SubsetBackends(name, ss) :: b
  }

  function EarlyEndpoints(name: string, edpts: seq<Endpoints>, n: nat): set<Backend>
    requires n <= |edpts|
  {
    set e, b | e in edpts[..n] && b in EndpointsBackends(name, e) :: b
  }

  /** Lines 173-175: the addresses of one subset. */
  method AddAddresses(expected: map<string, RealServer>, addresses: seq<string>, port: Port, net: AddrText,
                      ghost bs: set<Backend>)
    returns (r: map<string, RealServer>)
    requires Represents(expected, bs, net)
    ensures Represents(r, bs + Addressed(addresses, port), net)
  {
    r := expected;
    ghost var done := bs;
    for i := 0 to |addresses|
      invariant done == bs + Addressed(addresses[..i], port)
      invariant Represents(r, done, net)
    {
      var ip := addresses[i];
      RepresentsAdd(r, done, net, Backend(ip, port));
      r := r[Key(ip, port) := RealServer(net.parse(ip), port)];
      assert addresses[..i + 1] == addresses[..i] + [ip];
      done := done + {Backend(ip, port)};
    }
    assert addresses[..|addresses|] == addresses;
  }

  /** Lines 167-176: the subsets of one endpoints object. */
  method AddSubsets(expected: map<string, RealServer>, e: Endpoints, name: string, net: AddrText,
                    ghost bs: set<Backend>)
    returns (r: map<string, RealServer>)
    requires Represents(expected, bs, net)
    ensures Represents(r, bs + EndpointsBackends(name, e), net)
  {
    r := expected;
    for i := 0 to |e.subsets|
      invariant Represents(r, bs + EarlySubsets(name, e.subsets, i), net)
    {
      var ss := e.subsets[i];
      ghost var done := bs + EarlySubsets(name, e.subsets, i);
      assert e.subsets[..i + 1] == e.subsets[..i] + [ss];
      assert EarlySubsets(name, e.subsets, i + 1) == EarlySubsets(name, e.subsets, i) + SubsetBackends(name, ss);
      assert bs + EarlySubsets(name, e.subsets, i + 1) == done + SubsetBackends(name, ss);
      var port := GetTargetIntPort(name, ss.ports);
      if port == 0 {
        assert done + SubsetBackends(name, ss) == done;
        continue;
      }
      r := AddAddresses(r, ss.addresses, port, net, done);
    }
    assert e.subsets[..|e.subsets|] == e.subsets;
    assert EarlySubsets(name, e.subsets, |e.subsets|) == EndpointsBackends(name, e);
  }

  /** `addExpectRS`. */
  method AddExpectRS(expected: map<string, RealServer>, edpts: seq<Endpoints>, port: Port, svc: Service, net: AddrText,
                     ghost bs: set<Backend>, ghost eps: seq<Endpoints>)
    returns (r: map<string, RealServer>)
    requires Represents(expected, bs, net)
    requires forall e :: e in edpts <==> e in eps && Matches(svc, e)
    ensures Represents(r, bs + ServiceBackends(svc, port, eps), net)
  {
    r := expected;
    var target := GetTargetPort(port, svc);
    if target.None? {
      assert bs + {} == bs;
      return;
    }
    var name := target.value.name;
    for i := 0 to |edpts|
      invariant Represents(r, bs + EarlyEndpoints(name, edpts, i), net)
    {
      ghost var done := bs + EarlyEndpoints(name, edpts, i);
      assert edpts[..i + 1] == edpts[..i] + [edpts[i]];
      assert EarlyEndpoints(name, edpts, i + 1) == EarlyEndpoints(name, edpts, i) + EndpointsBackends(name, edpts[i]);
      assert bs + EarlyEndpoints(name, edpts, i + 1) == done + EndpointsBackends(name, edpts[i]);
      r := AddSubsets(r, edpts[i], name, net, done);
    }
    assert edpts[..|edpts|] == edpts;
    assert EarlyEndpoints(name, edpts, |edpts|) == NamedBackends(svc, name, eps);
  }

  /** `getExpectRSs`. */
  method GetExpectRSs(svcs: seq<Service>, m: EndpointsMap, port: Port, net: AddrText, ghost eps: seq<Endpoints>)
    returns (expected: map<string, RealServer>)
    requires HasSlots(m, svcs) && SlotsHold(m, eps)
    ensures Represents(expected, ServicesBackends(svcs, port, eps), net)
  {
    expected := map[];
    for i := 0 to |svcs|
      invariant Represents(expected, ServicesBackends(svcs[..i], port, eps), net)
    {
      var svc := svcs[i];
      ghost var done := ServicesBackends(svcs[..i], port, eps);
      assert svcs[..i + 1] == svcs[..i] + [svc];
      assert ServicesBackends(svcs[..i + 1], port, eps) == done + ServiceBackends(svc, port, eps);
      var edpts := m[svc.namespace][svc.name];
      if |edpts| == 0 {
        NoEndpoints(svc, port, eps, edpts);
        assert done + ServiceBackends(svc, port, eps) == done;
        continue;
      }
      expected := AddExpectRS(expected, edpts, port, svc, net, done, eps);
    }
    assert svcs[..|svcs|] == svcs;
  }

  lemma NoEndpoints(svc: Service, port: Port, eps: seq<Endpoints>, edpts: seq<Endpoints>)
    requires edpts == [] && forall e :: e in edpts <==> e in eps && Matches(svc, e)
    ensures ServiceBackends(svc, port, eps) == {}
  {
    assert forall e | e in eps :: !Matches(svc, e);
  }

  // ------------------------------------------------- writes

  /** `addRealServers`: one call per expected entry, in map order. */
  method AddRealServers(lvs: Ipvs.Handler, vs: VirtualServer, expected: map<string, RealServer>, ghost goal: Table)
    requires lvs.Valid() && vs in lvs.table
    modifies lvs
    ensures lvs.Valid() && lvs.faults >= old(lvs.faults)
    ensures old(lvs.log) <= lvs.log && |lvs.log| == |old(lvs.log)| + |expected|
    ensures vs in lvs.table && lvs.table == old(lvs.table)[vs := lvs.table[vs]]
    ensures lvs.faults == old(lvs.faults) ==> lvs.table[vs] == old(lvs.table)[vs] + expected.Values
    ensures vs in goal && expected.Values <= goal[vs] ==> Ipvs.RightFrom(lvs.log, |old(lvs.log)|, goal)
  {
    hide Ipvs.Ran;
    hide Ipvs.Replay;
    var keys := Enumerate(expected.Keys);
    ghost var added: set<RealServer> := {};
    for i := 0 to |keys|
      invariant lvs.Valid() && lvs.faults >= old(lvs.faults)
      invariant old(lvs.log) <= lvs.log && |lvs.log| == |old(lvs.log)| + i
      invariant vs in lvs.table && lvs.table == old(lvs.table)[vs := lvs.table[vs]]
      invariant added <= expected.Values && forall j | 0 <= j < i :: expected[keys[j]] in added
      invariant lvs.faults == old(lvs.faults) ==> lvs.table[vs] == old(lvs.table)[vs] + added
      invariant vs in goal && expected.Values <= goal[vs] ==> Ipvs.RightFrom(lvs.log, |old(lvs.log)|, goal)
    {
      assert keys[i] in expected.Keys;
      var rs := expected[keys[i]];
      var ok := lvs.Write(Ipvs.AddReal(vs, rs));
      added := added + {rs};
    }
    assert added == expected.Values by {
      forall rs | rs in expected.Values ensures rs in added {
        var k :| k in expected && expected[k] == rs;
        assert k in keys;
      }
    }
  }

  /** Line 106: the text a listed real server is looked up under. */
  function RsKey(net: AddrText, rs: RealServer): string { Key(net.show(rs.address), rs.port) }

  lemma RsKeyInjective(net: AddrText, rs: RealServer, rs': RealServer)
    requires net.Lawful() && RsKey(net, rs) == RsKey(net, rs')
    ensures rs == rs'
  {
    KeyInjective(net.show(rs.address), rs.port, net.show(rs'.address), rs'.port);
    assert net.parse(net.show(rs.address)) == rs.address && net.parse(net.show(rs'.address)) == rs'.address;
  }

  /** A listed server whose key is expected is the expected server. */
  lemma ExpectedKey(expected: map<string, RealServer>, bs: set<Backend>, net: AddrText, rs: RealServer)
    requires net.Lawful() && Represents(expected, bs, net) && RsKey(net, rs) in expected
    ensures expected[RsKey(net, rs)] == rs
  {
    var b :| b in bs && Key(b.ip, b.port) == RsKey(net, rs);
    KeyInjective(b.ip, b.port, net.show(rs.address), rs.port);
    assert net.parse(net.show(rs.address)) == rs.address;
  }

  lemma ExpectedValues(expected: map<string, RealServer>, bs: set<Backend>, net: AddrText)
    requires Represents(expected, bs, net)
    ensures expected.Values == RealServers(net, bs)
  {
    forall b | b in bs ensures ToRealServer(net, b) in expected.Values {
      assert Key(b.ip, b.port) in expected;
    }
  }

  function Keys(net: AddrText, rss: seq<RealServer>): set<string> { set rs | rs in rss :: RsKey(net, rs) }

  function Stale(net: AddrText, rss: seq<RealServer>, expected: map<string, RealServer>): set<RealServer> {
    set rs | rs in rss && RsKey(net, rs) !in expected
  }

  /** From `from` on, the calls only delete real servers of `vs` that are in `stale`. */
  ghost predicate DeletesOnly(log: seq<Ipvs.Call>, from: nat, vs: VirtualServer, stale: set<RealServer>) {
    forall i | from <= i < |log| ::
      log[i].move.DeleteReal? && log[i].move.vs == vs && log[i].move.rs in stale
  }

  lemma FreshKey(net: AddrText, rss: seq<RealServer>, j: nat)
    requires net.Lawful() && NoDuplicates(rss) && j < |rss|
    ensures RsKey(net, rss[j]) !in Keys(net, rss[..j])
    ensures Keys(net, rss[..j + 1]) == Keys(net, rss[..j]) + {RsKey(net, rss[j])}
  {
    assert rss[..j + 1] == rss[..j] + [rss[j]];
    forall k | 0 <= k < j ensures RsKey(net, rss[k]) != RsKey(net, rss[j]) {
      if RsKey(net, rss[k]) == RsKey(net, rss[j]) { RsKeyInjective(net, rss[k], rss[j]); }
    }
  }

  lemma StaleStep(net: AddrText, rss: seq<RealServer>, j: nat, expected: map<string, RealServer>)
    requires j < |rss|
    ensures Stale(net, rss[..j + 1], expected) ==
            Stale(net, rss[..j], expected) + (if RsKey(net, rss[j]) in expected then {} else {rss[j]})
    ensures Stale(net, rss[..j + 1], expected) <= Stale(net, rss, expected)
  {
    assert rss[..j + 1] == rss[..j] + [rss[j]];
  }

  /** Lines 104-114: delete what is not expected, and strike off what is already there. */
  method DeleteStale(lvs: Ipvs.Handler, vs: VirtualServer, rss: seq<RealServer>, expected: map<string, RealServer>,
                     net: AddrText)
    returns (left: map<string, RealServer>)
    requires lvs.Valid() && vs in lvs.table && net.Lawful() && Lists(rss, lvs.table[vs])
    modifies lvs
    ensures lvs.Valid() && lvs.faults >= old(lvs.faults)
    ensures old(lvs.log) <= lvs.log && DeletesOnly(lvs.log, |old(lvs.log)|, vs, Stale(net, rss, expected))
    ensures vs in lvs.table && lvs.table == old(lvs.table)[vs := lvs.table[vs]]
    ensures lvs.faults == old(lvs.faults) ==> lvs.table[vs] == old(lvs.table)[vs] - Stale(net, rss, expected)
    ensures lvs.faults == old(lvs.faults) && Stale(net, rss, expected) != {} ==> |lvs.log| > |old(lvs.log)|
    ensures left == expected - Keys(net, rss)
  {
    hide Ipvs.Ran;
    hide Ipvs.Replay;
    left := expected;
    ghost var listed := lvs.table[vs];
    for j := 0 to |rss|
      invariant lvs.Valid() && lvs.faults >= old(lvs.faults)
      invariant old(lvs.log) <= lvs.log && DeletesOnly(lvs.log, |old(lvs.log)|, vs, Stale(net, rss, expected))
      invariant vs in lvs.table && lvs.table == old(lvs.table)[vs := lvs.table[vs]]
      invariant lvs.table[vs] >= listed - Stale(net, rss[..j], expected)
      invariant lvs.faults == old(lvs.faults) ==> lvs.table[vs] == listed - Stale(net, rss[..j], expected)
      invariant lvs.log == old(lvs.log) ==> lvs.table == old(lvs.table)
      invariant left == expected - Keys(net, rss[..j])
    {
      var rs := rss[j];
      FreshKey(net, rss, j);
      StaleStep(net, rss, j, expected);
      assert rs in listed && rs !in Stale(net, rss[..j], expected);
      if RsKey(net, rs) !in left {
        var ok := lvs.Write(Ipvs.DeleteReal(vs, rs));
      } else {
        left := left - {RsKey(net, rs)};
      }
    }
    assert rss[..|rss|] == rss;
    StaleListed(net, rss, expected, listed);
  }

  lemma StaleListed(net: AddrText, rss: seq<RealServer>, expected: map<string, RealServer>, listed: set<RealServer>)
    requires Lists(rss, listed)
    ensures Stale(net, rss, expected) <= listed
    ensures Stale(net, rss, expected) != {} ==> listed - Stale(net, rss, expected) != listed
  {
    if Stale(net, rss, expected) != {} {
      var rs :| rs in Stale(net, rss, expected);
      assert rs in listed && rs !in listed - Stale(net, rss, expected);
    }
  }

  /** Keeping what is expected and adding what is left gives exactly the expected servers. */
  lemma KeptAndAdded(expected: map<string, RealServer>, bs: set<Backend>, net: AddrText, rss: seq<RealServer>,
                     listed: set<RealServer>)
    requires net.Lawful() && Represents(expected, bs, net) && Lists(rss, listed)
    ensures (listed - Stale(net, rss, expected)) + (expected - Keys(net, rss)).Values == RealServers(net, bs)
    ensures (expected - Keys(net, rss)).Values <= RealServers(net, bs)
  {
    var kept, left := listed - Stale(net, rss, expected), expected - Keys(net, rss);
    ExpectedValues(expected, bs, net);
    forall rs | rs in kept ensures rs in expected.Values {
      ExpectedKey(expected, bs, net, rs);
    }
    forall rs | rs in expected.Values ensures rs in kept + left.Values {
      var k :| k in expected && expected[k] == rs;
      if k in left {
        assert left[k] == rs;
      } else {
        var rs' :| rs' in rss && RsKey(net, rs') == k;
        ExpectedKey(expected, bs, net, rs');
      }
    }
    forall rs | rs in left.Values ensures rs in expected.Values {
      var k :| k in left && left[k] == rs;
      assert expected[k] == rs;
    }
  }

  /** Nothing desired is stale, whatever is listed, exactly when every address is covered. */
  lemma StaleExactly(expected: map<string, RealServer>, bs: set<Backend>, net: AddrText, rss: seq<RealServer>,
                     listed: set<RealServer>)
    requires Represents(expected, bs, net) && Lists(rss, listed)
    ensures Covered(net, bs) ==> Stale(net, rss, expected) !! RealServers(net, bs)
    ensures !Covered(net, bs) && listed == RealServers(net, bs) ==> Stale(net, rss, expected) != {}
  {
    if Covered(net, bs) {
      forall rs | rs in RealServers(net, bs) ensures RsKey(net, rs) in expected {
        var b :| b in bs && ToRealServer(net, b) == rs;
        assert RsKey(net, rs) == Key(net.show(net.parse(b.ip)), b.port);
        assert Backend(net.show(net.parse(b.ip)), b.port) in bs;
      }
    } else if listed == RealServers(net, bs) {
      var b :| b in bs && Backend(net.show(net.parse(b.ip)), b.port) !in bs;
      Uncovered(expected, bs, net, b);
      assert ToRealServer(net, b) in listed;
      assert ToRealServer(net, b) in Stale(net, rss, expected);
    }
  }

  lemma Uncovered(expected: map<string, RealServer>, bs: set<Backend>, net: AddrText, b: Backend)
    requires Represents(expected, bs, net) && Backend(net.show(net.parse(b.ip)), b.port) !in bs
    ensures RsKey(net, ToRealServer(net, b)) !in expected
  {
    var shown := net.show(net.parse(b.ip));
    if Key(shown, b.port) in expected {
      var c :| c in bs && Key(c.ip, c.port) == Key(shown, b.port);
      KeyInjective(c.ip, c.port, shown, b.port);
    }
  }

  /** Canonical spelling: on a settled server nothing is stale and nothing is added again. */
  lemma CanonicalSettled(expected: map<string, RealServer>, bs: set<Backend>, net: AddrText, rss: seq<RealServer>,
                         listed: set<RealServer>)
    requires Represents(expected, bs, net) && Lists(rss, listed) && AllCanonical(net, bs)
    ensures listed == RealServers(net, bs) ==> Stale(net, rss, expected) == {} && expected - Keys(net, rss) == map[]
  {
    forall rs | rs in RealServers(net, bs) ensures RsKey(net, rs) in expected {
      var b :| b in bs && ToRealServer(net, b) == rs;
      assert RsKey(net, rs) == Key(b.ip, b.port);
    }
    if listed == RealServers(net, bs) {
      forall k | k in expected ensures k in Keys(net, rss) {
        var b :| b in bs && Key(b.ip, b.port) == k;
        assert ToRealServer(net, b) in rss && RsKey(net, ToRealServer(net, b)) == k;
      }
    }
  }

  /** An address spelt otherwise is never struck off. */
  lemma NotStruckOff(expected: map<string, RealServer>, bs: set<Backend>, net: AddrText, rss: seq<RealServer>,
                     b: Backend)
    requires net.Lawful() && Represents(expected, bs, net) && b in bs && !net.Canonical(b.ip)
    ensures |expected - Keys(net, rss)| > 0
  {
    var k := Key(b.ip, b.port);
    forall rs | rs in rss ensures RsKey(net, rs) != k {
      assert net.parse(net.show(rs.address)) == rs.address;
      if RsKey(net, rs) == k {
        KeyInjective(net.show(rs.address), rs.port, b.ip, b.port);
      }
    }
    assert k in expected - Keys(net, rss);
  }

  /** Lines 104-116: delete what is stale, then add what is left. */
  method Converge(lvs: Ipvs.Handler, vs: VirtualServer, rss: seq<RealServer>, expected: map<string, RealServer>,
                  net: AddrText, ghost goal: Table)
    requires lvs.Valid() && vs in lvs.table && vs in goal && net.Lawful() && Lists(rss, lvs.table[vs])
    requires (lvs.table[vs] - Stale(net, rss, expected)) + (expected - Keys(net, rss)).Values == goal[vs]
    requires (expected - Keys(net, rss)).Values <= goal[vs]
    modifies lvs
    ensures lvs.Valid() && lvs.faults >= old(lvs.faults)
    ensures old(lvs.log) <= lvs.log && |lvs.log| >= |old(lvs.log)| + |expected - Keys(net, rss)|
    ensures vs in lvs.table && lvs.table == old(lvs.table)[vs := lvs.table[vs]]
    ensures lvs.faults == old(lvs.faults) ==> lvs.table[vs] == goal[vs]
    ensures Stale(net, rss, expected) !! goal[vs] ==> Ipvs.RightFrom(lvs.log, |old(lvs.log)|, goal)
    ensures lvs.faults == old(lvs.faults) && Stale(net, rss, expected) != {} &&
            Stale(net, rss, expected) <= goal[vs] ==>
              !Ipvs.RightFrom(lvs.log, |old(lvs.log)|, goal)
    ensures Stale(net, rss, expected) == {} && expected - Keys(net, rss) == map[] ==> lvs.log == old(lvs.log)
  {
    hide *;
    var left := DeleteStale(lvs, vs, rss, expected, net);
    ghost var mid, table := lvs.log, lvs.table;
    AddRealServers(lvs, vs, left, goal);
    OneServer(old(lvs.table), table, lvs.table, vs);
    RightParts(mid, lvs.log, |old(lvs.log)|, vs, Stale(net, rss, expected), goal);
  }

  lemma OneServer(t: Table, t': Table, t'': Table, vs: VirtualServer)
    requires vs in t' && t' == t[vs := t'[vs]] && vs in t'' && t'' == t'[vs := t''[vs]]
    ensures t'' == t[vs := t''[vs]]
  {
  }

  lemma RightParts(mid: seq<Ipvs.Call>, log: seq<Ipvs.Call>, from: nat, vs: VirtualServer, stale: set<RealServer>,
                   goal: Table)
    requires mid <= log && from <= |mid| && vs in goal
    requires DeletesOnly(mid, from, vs, stale) && Ipvs.RightFrom(log, |mid|, goal)
    ensures stale !! goal[vs] ==> Ipvs.RightFrom(log, from, goal)
    ensures |mid| > from ==> stale != {}
    ensures |mid| > from && stale <= goal[vs] ==> !Ipvs.RightFrom(log, from, goal)
  {
    assert |mid| > from ==> log[from] == mid[from] && mid[from].move.rs in stale;
    forall i | from <= i < |log| ensures stale !! goal[vs] ==> Ipvs.Right(log[i].move, goal) {
      if i < |mid| { assert log[i] == mid[i]; }
    }
  }

  lemma Settle(expected: map<string, RealServer>, bs: set<Backend>, net: AddrText, rss: seq<RealServer>,
               listed: set<RealServer>)
    requires net.Lawful() && Represents(expected, bs, net) && Lists(rss, listed)
    ensures (listed - Stale(net, rss, expected)) + (expected - Keys(net, rss)).Values == RealServers(net, bs)
    ensures (expected - Keys(net, rss)).Values <= RealServers(net, bs)
    ensures Covered(net, bs) ==> Stale(net, rss, expected) !! RealServers(net, bs)
    ensures !Covered(net, bs) && listed == RealServers(net, bs) ==>
            Stale(net, rss, expected) != {} && Stale(net, rss, expected) <= RealServers(net, bs)
    ensures AllCanonical(net, bs) && listed == RealServers(net, bs) ==>
              Stale(net, rss, expected) == {} && expected - Keys(net, rss) == map[]
    ensures !AllCanonical(net, bs) ==> |expected - Keys(net, rss)| > 0
  {
    KeptAndAdded(expected, bs, net, rss, listed);
    StaleExactly(expected, bs, net, rss, listed);
    StaleListed(net, rss, expected, listed);
    hide Stale;
    hide Covered;
    hide Keys;
    if AllCanonical(net, bs) {
      CanonicalSettled(expected, bs, net, rss, listed);
    } else {
      var b :| b in bs && !net.Canonical(b.ip);
      NotStruckOff(expected, bs, net, rss, b);
    }
  }

  /** Lines 99-116: bring the real servers of one wanted virtual server up to date. */
  method SyncRealServers(lvs: Ipvs.Handler, vs: VirtualServer, expected: map<string, RealServer>, net: AddrText,
                         ghost bs: set<Backend>, ghost goal: Table)
    requires lvs.Valid() && vs in lvs.table && net.Lawful()
    requires Represents(expected, bs, net) && vs in goal && goal[vs] == RealServers(net, bs)
    modifies lvs
    ensures lvs.Valid() && lvs.faults >= old(lvs.faults)
    ensures old(lvs.log) <= lvs.log
    ensures vs in lvs.table && lvs.table == old(lvs.table)[vs := lvs.table[vs]]
    ensures lvs.faults == old(lvs.faults) ==> lvs.table[vs] == goal[vs]
    ensures Covered(net, bs) ==> Ipvs.RightFrom(lvs.log, |old(lvs.log)|, goal)
    ensures lvs.faults == old(lvs.faults) && !Covered(net, bs) && old(lvs.table)[vs] == goal[vs] ==>
              !Ipvs.RightFrom(lvs.log, |old(lvs.log)|, goal)
    ensures AllCanonical(net, bs) && old(lvs.table)[vs] == goal[vs] ==> lvs.log == old(lvs.log)
    ensures lvs.faults == old(lvs.faults) && !AllCanonical(net, bs) ==> |lvs.log| > |old(lvs.log)|
  {
    hide Ipvs.Ran;
    hide Ipvs.Replay;
    hide Covered;
    hide AllCanonical;
    hide Represents;
    var rss, ok := lvs.GetRealServers(Ipvs.Known(vs));
    if ok {
      Settle(expected, bs, net, rss, lvs.table[vs]);
      Converge(lvs, vs, rss, expected, net, goal);
    }
  }

  // ------------------------------------------------- the two passes of Build

  /** `goal` forwards each virtual server to the parsed addresses of its backends. */
  ghost predicate GoalOf(goal: Table, backs: map<VirtualServer, set<Backend>>, vip: IP, net: AddrText) {
    && goal.Keys <= backs.Keys
    && forall vs | vs in goal :: vs.address == vip && goal[vs] == RealServers(net, backs[vs])
  }

  /** `ports` still holds the virtual servers in `left`, with services that yield their backends. */
  ghost predicate PortsReady(ports: PortMaps, vip: IP, left: set<VirtualServer>,
                             backs: map<VirtualServer, set<Backend>>, m: EndpointsMap, eps: seq<Endpoints>)
  {
    && |ports| == 2 && left <= backs.Keys
    && (forall q, p: Port :: p in ports[Index(q)] <==> VirtualServer(vip, q, p) in left)
    && forall q, p | p in ports[Index(q)] ::
         && HasSlots(m, ports[Index(q)][p])
         && ServicesBackends(ports[Index(q)][p], p, eps) == backs[VirtualServer(vip, q, p)]
  }

  function Drain(ports: PortMaps, vs: VirtualServer): (r: PortMaps)
    requires |ports| == 2
    ensures |r| == 2
  {
    ports[Index(vs.protocol) := ports[Index(vs.protocol)] - {vs.port}]
  }

  lemma DrainReady(ports: PortMaps, vip: IP, left: set<VirtualServer>, backs: map<VirtualServer, set<Backend>>,
                   m: EndpointsMap, eps: seq<Endpoints>, vs: VirtualServer)
    requires PortsReady(ports, vip, left, backs, m, eps) && vs.address == vip
    ensures PortsReady(Drain(ports, vs), vip, left - {vs}, backs, m, eps)
  {
    var r := Drain(ports, vs);
    forall q, p: Port ensures p in r[Index(q)] <==> VirtualServer(vip, q, p) in left - {vs} {
    }
  }

  ghost predicate Agree(t: Table, t': Table, vs: VirtualServer) {
    (vs in t <==> vs in t') && (vs in t ==> t[vs] == t'[vs])
  }

  /** What handling one listed virtual server does to the table; `clean` when no call failed. */
  ghost predicate Stepped(t: Table, t': Table, vs: VirtualServer, goal: Table, clean: bool) {
    && (vs in goal ==> vs in t' && t' == t[vs := t'[vs]])
    && (vs !in goal ==> t' == t || t' == t - {vs})
    && (clean ==> Agree(t', goal, vs))
  }

  /** What it does to the call log, as the spelling of the server's backends decides. */
  ghost predicate Logged(log: seq<Ipvs.Call>, log': seq<Ipvs.Call>, vs: VirtualServer, settled: bool,
                         covered: bool, canonical: bool, goal: Table, clean: bool)
  {
    && log <= log'
    && (covered ==> Ipvs.RightFrom(log', |log|, goal))
    && (clean && vs in goal && settled && !covered ==> !Ipvs.RightFrom(log', |log|, goal))
    && (canonical && settled ==> log' == log)
    && (clean && vs in goal && !canonical ==> |log'| > |log|)
  }

  /** Lines 75-117: one listed virtual server. */
  method SyncOne(lvs: Ipvs.Handler, vs: VirtualServer, vip: IP, net: AddrText, ports: PortMaps, m: EndpointsMap,
                 ghost eps: seq<Endpoints>, ghost left: set<VirtualServer>,
                 ghost backs: map<VirtualServer, set<Backend>>, ghost goal: Table)
    returns (rest: PortMaps)
    requires lvs.Valid() && vs in lvs.table && net.Lawful()
    requires PortsReady(ports, vip, left, backs, m, eps) && SlotsHold(m, eps) && GoalOf(goal, backs, vip, net)
    requires vs in left <==> vs in goal
    modifies lvs
    ensures lvs.Valid() && lvs.faults >= old(lvs.faults)
    ensures PortsReady(rest, vip, left - {vs}, backs, m, eps)
    ensures Stepped(old(lvs.table), lvs.table, vs, goal, lvs.faults == old(lvs.faults))
    ensures Logged(old(lvs.log), lvs.log, vs, Agree(old(lvs.table), goal, vs),
                   vs in goal && vs in backs ==> Covered(net, backs[vs]),
                   vs in goal && vs in backs ==> AllCanonical(net, backs[vs]), goal, lvs.faults == old(lvs.faults))
  {
    hide SlotsHold;
    hide HasSlots;
    hide ServicesBackends;
    hide RealServers;
    hide AllCanonical;
    hide Covered;
    hide Represents;
    hide Ipvs.Ran;
    hide Ipvs.Replay;
    rest := ports;
    if vs.address != vip {
      assert left - {vs} == left;
      var ok := lvs.Write(Ipvs.DeleteServer(vs));
      return;
    }
    assert vs == VirtualServer(vip, vs.protocol, vs.port);
    var i := Index(vs.protocol);
    if vs.port !in ports[i] {
      assert left - {vs} == left;
      var ok := lvs.Write(Ipvs.DeleteServer(vs));
    } else {
      var svcs := ports[i][vs.port];
      DrainReady(ports, vip, left, backs, m, eps, vs);
      rest := Drain(ports, vs);
      var expected := GetExpectRSs(svcs, m, vs.port, net, eps);
      SyncRealServers(lvs, vs, expected, net, backs[vs], goal);
    }
  }

  ghost predicate Canonical(goal: Table, backs: map<VirtualServer, set<Backend>>, net: AddrText) {
    forall vs | vs in goal && vs in backs :: AllCanonical(net, backs[vs])
  }

  ghost predicate AllCovered(goal: Table, backs: map<VirtualServer, set<Backend>>, net: AddrText) {
    forall vs | vs in goal && vs in backs :: Covered(net, backs[vs])
  }

  ghost predicate AgreeAt(t: Table, t': Table, item: Ipvs.Listed) { item.Known? ==> Agree(t, t', item.vs) }

  /** The table after `i` of the listed servers: the rest is untouched, and these agree with `goal` when `clean`. */
  ghost predicate Halfway(listing: seq<Ipvs.Listed>, i: nat, t0: Table, t: Table, goal: Table, clean: bool) {
    && i <= |listing| && t.Keys <= t0.Keys
    && (forall k | i <= k < |listing| :: AgreeAt(t, t0, listing[k]))
    && (clean ==> forall k | 0 <= k < i :: AgreeAt(t, goal, listing[k]))
  }

  lemma HalfwayStep(listing: seq<Ipvs.Listed>, i: nat, t0: Table, t: Table, t': Table, goal: Table, clean: bool,
                    ok: bool, clean': bool)
    requires Ipvs.KnownOnce(listing) && i < |listing| && (clean' ==> clean && ok)
    requires Halfway(listing, i, t0, t, goal, clean)
    requires if listing[i].Known? then listing[i].vs in t && Stepped(t, t', listing[i].vs, goal, ok) else t' == t
    ensures Halfway(listing, i + 1, t0, t', goal, clean')
  {
    forall k | i + 1 <= k < |listing| ensures AgreeAt(t', t0, listing[k]) {
      assert AgreeAt(t, t0, listing[k]) && (listing[i].Known? ==> listing[i] != listing[k]);
    }
    if clean' {
      forall k | 0 <= k < i + 1 ensures AgreeAt(t', goal, listing[k]) {
        if k < i { assert AgreeAt(t, goal, listing[k]) && (listing[k].Known? ==> listing[k] != listing[i]); }
      }
    }
  }

  /** The call log after `i` of the listed servers; `wanted` before any of them is drained. */
  ghost predicate LoggedSoFar(listing: seq<Ipvs.Listed>, i: nat, log0: seq<Ipvs.Call>, log: seq<Ipvs.Call>, t0: Table,
                              backs: map<VirtualServer, set<Backend>>, net: AddrText, goal: Table,
                              wanted: set<VirtualServer>, clean: bool)
  {
    && i <= |listing| && log0 <= log && goal.Keys <= backs.Keys
    && (AllCovered(goal, backs, net) ==> Ipvs.RightFrom(log, |log0|, goal))
    && (clean && t0 == goal && Ipvs.RightFrom(log, |log0|, goal) ==>
          forall k | 0 <= k < i && listing[k].Known? && listing[k].vs in goal :: Covered(net, backs[listing[k].vs]))
    && (Canonical(goal, backs, net) && t0 == goal && (forall k | 0 <= k < i :: listing[k].Known?) ==> log == log0)
    && (clean && |log| == |log0| ==>
          forall k | 0 <= k < i && listing[k].Known? && listing[k].vs in goal ::
            AllCanonical(net, backs[listing[k].vs]))
    && (|log| == |log0| ==> forall k | 0 <= k < i && listing[k].Strange? :: Ipvs.Twin(listing[k].stranger) in wanted)
  }

  lemma LoggedStep(listing: seq<Ipvs.Listed>, i: nat, log0: seq<Ipvs.Call>, log: seq<Ipvs.Call>, log': seq<Ipvs.Call>,
                   t0: Table, t: Table, backs: map<VirtualServer, set<Backend>>, net: AddrText, goal: Table,
                   wanted: set<VirtualServer>, clean: bool, ok: bool, clean': bool)
    requires LoggedSoFar(listing, i, log0, log, t0, backs, net, goal, wanted, clean)
    requires i < |listing| && listing[i].Known? && listing[i].vs in t && Agree(t, t0, listing[i].vs)
    requires (clean' ==> clean && ok)
    requires var vs := listing[i].vs;
             Logged(log, log', vs, Agree(t, goal, vs), vs in goal && vs in backs ==> Covered(net, backs[vs]),
                    vs in goal && vs in backs ==> AllCanonical(net, backs[vs]), goal, ok)
    ensures LoggedSoFar(listing, i + 1, log0, log', t0, backs, net, goal, wanted, clean')
  {
    hide Ipvs.RightFrom;
    hide Covered;
    hide AllCanonical;
    if AllCovered(goal, backs, net) {
      Ipvs.RightJoin(log, log', |log0|, goal);
    }
    if Ipvs.RightFrom(log', |log0|, goal) {
      Ipvs.RightSplit(log, log', |log0|, goal);
    }
  }

  /** What a stranger does to the call log: calls that cannot take effect, and none only if it drained a port. */
  ghost predicate Ignored(log: seq<Ipvs.Call>, log': seq<Ipvs.Call>, stranger: Ipvs.Stranger,
                          wanted: set<VirtualServer>) {
    && log <= log'
    && (forall i | |log| <= i < |log'| :: NamesStranger(log'[i].move, stranger))
    && (|log'| > |log| || Ipvs.Twin(stranger) in wanted)
  }

  predicate NamesStranger(m: Ipvs.Move, stranger: Ipvs.Stranger) {
    (m.DeleteStranger? || m.AddToStranger?) && m.stranger == stranger
  }

  lemma IgnoredStep(listing: seq<Ipvs.Listed>, i: nat, log0: seq<Ipvs.Call>, log: seq<Ipvs.Call>, log': seq<Ipvs.Call>,
                    t0: Table, backs: map<VirtualServer, set<Backend>>, net: AddrText, goal: Table,
                    wanted: set<VirtualServer>, clean: bool, clean': bool)
    requires LoggedSoFar(listing, i, log0, log, t0, backs, net, goal, wanted, clean) && (clean' ==> clean)
    requires i < |listing| && listing[i].Strange? && Ignored(log, log', listing[i].stranger, wanted)
    ensures LoggedSoFar(listing, i + 1, log0, log', t0, backs, net, goal, wanted, clean')
  {
    hide Covered;
    hide AllCanonical;
    assert Ipvs.RightFrom(log', |log|, goal);
    if AllCovered(goal, backs, net) {
      Ipvs.RightJoin(log, log', |log0|, goal);
    }
    if Ipvs.RightFrom(log', |log0|, goal) {
      Ipvs.RightSplit(log, log', |log0|, goal);
    }
  }

  lemma HalfwayNone(listing: seq<Ipvs.Listed>, t: Table, log: seq<Ipvs.Call>, backs: map<VirtualServer, set<Backend>>,
                    net: AddrText,
                    goal: Table, wanted: set<VirtualServer>)
    requires goal.Keys <= backs.Keys
    ensures Halfway(listing, 0, t, t, goal, true)
    ensures LoggedSoFar(listing, 0, log, log, t, backs, net, goal, wanted, true)
  {
  }

  lemma HalfwayNext(listing: seq<Ipvs.Listed>, i: nat, t0: Table, t: Table, goal: Table, clean: bool)
    requires i < |listing| && Halfway(listing, i, t0, t, goal, clean)
    ensures AgreeAt(t, t0, listing[i])
  {
  }

  /** After the last listed server. */
  lemma HalfwayDone(listing: seq<Ipvs.Listed>, strangers: seq<Ipvs.Stranger>, t0: Table, t: Table,
                    log0: seq<Ipvs.Call>, log: seq<Ipvs.Call>,
                    backs: map<VirtualServer, set<Backend>>, net: AddrText, goal: Table, wanted: set<VirtualServer>,
                    clean: bool)
    requires Ipvs.Listing(listing, t0, strangers)
    requires Halfway(listing, |listing|, t0, t, goal, clean)
    requires LoggedSoFar(listing, |listing|, log0, log, t0, backs, net, goal, wanted, clean)
    ensures Synced(strangers, t0, t, log0, log, backs, net, goal, wanted, clean)
  {
    hide Ipvs.RightFrom;
    hide Covered;
    hide AllCanonical;
    if clean {
      forall vs | vs in t0 ensures Agree(t, goal, vs) {
        assert Ipvs.Known(vs) in listing;
        var k :| 0 <= k < |listing| && listing[k] == Ipvs.Known(vs);
        assert AgreeAt(t, goal, listing[k]);
      }
      forall vs | t0 == goal && vs in goal && vs in backs
        ensures Ipvs.RightFrom(log, |log0|, goal) ==> Covered(net, backs[vs])
        ensures |log| == |log0| ==> AllCanonical(net, backs[vs])
      {
        assert Ipvs.Known(vs) in listing;
        var k :| 0 <= k < |listing| && listing[k] == Ipvs.Known(vs);
      }
    }
    if |log| == |log0| {
      forall s | s in strangers ensures Ipvs.Twin(s) in wanted {
        assert Ipvs.Strange(s) in listing;
        var k :| 0 <= k < |listing| && listing[k] == Ipvs.Strange(s);
      }
    }
    if strangers == [] { Ipvs.AllKnown(listing, t0); }
  }

  /** What the first pass leaves behind. */
  ghost predicate Synced(strangers: seq<Ipvs.Stranger>, t0: Table, t: Table, log0: seq<Ipvs.Call>, log: seq<Ipvs.Call>,
                         backs: map<VirtualServer, set<Backend>>, net: AddrText, goal: Table,
                         wanted: set<VirtualServer>, clean: bool)
  {
    && t.Keys <= t0.Keys && log0 <= log
    && (clean ==> forall vs | vs in t0 :: Agree(t, goal, vs))
    && (AllCovered(goal, backs, net) ==> Ipvs.RightFrom(log, |log0|, goal))
    && (clean && t0 == goal && Ipvs.RightFrom(log, |log0|, goal) ==> AllCovered(goal, backs, net))
    && (Canonical(goal, backs, net) && t0 == goal && strangers == [] ==> log == log0)
    && (clean && t0 == goal && |log| == |log0| ==> Canonical(goal, backs, net))
    && (|log| == |log0| ==> forall s | s in strangers :: Ipvs.Twin(s) in wanted)
  }

  /** The wanted servers no item of `listing` stands for. */
  ghost predicate LeftOver(left: set<VirtualServer>, wanted: set<VirtualServer>, listing: seq<Ipvs.Listed>) {
    forall vs :: vs in left <==>
      vs in wanted && Ipvs.Known(vs) !in listing && !(vs.protocol == TCP && Ipvs.Strange(Ipvs.Shadow(vs)) in listing)
  }

  lemma LeftNone(wanted: set<VirtualServer>)
    ensures LeftOver(wanted, wanted, [])
  {
  }

  lemma LeftNext(left: set<VirtualServer>, wanted: set<VirtualServer>, listing: seq<Ipvs.Listed>, i: nat)
    requires i < |listing| && LeftOver(left, wanted, listing[..i])
    ensures LeftOver(left - {Ipvs.Drains(listing[i])}, wanted, listing[..i + 1])
  {
    assert listing[..i + 1] == listing[..i] + [listing[i]];
  }

  /** A listed server is still waiting exactly when it is in the aim. */
  lemma LeftListed(left: set<VirtualServer>, goal: Table, listing: seq<Ipvs.Listed>, i: nat)
    requires Ipvs.KnownOnce(listing) && i < |listing| && listing[i].Known? && LeftOver(left, goal.Keys, listing[..i])
    ensures listing[i].vs in left <==> listing[i].vs in Ipvs.Aim(goal, listing)
  {
    var vs := listing[i].vs;
    assert Ipvs.Known(vs) !in listing[..i];
    if Ipvs.Shadowed(vs, listing) {
      var j :| 0 <= j < |listing| && Ipvs.ShadowedAt(vs, listing, j);
      assert forall k | 0 <= k < j :: listing[k] == listing[..j][k] && listing[k] in listing[..j];
      assert j < i;
      assert listing[..i][j] == listing[j];
    }
    if vs.protocol == TCP && Ipvs.Strange(Ipvs.Shadow(vs)) in listing[..i] {
      var j :| 0 <= j < i && listing[..i][j] == Ipvs.Strange(Ipvs.Shadow(vs));
      assert Ipvs.Known(vs) !in listing[..j] by { assert forall k | 0 <= k < j :: listing[..j][k] == listing[..i][k]; }
      assert Ipvs.ShadowedAt(vs, listing, j);
    }
  }

  lemma LeftDone(left: set<VirtualServer>, goal: Table, listing: seq<Ipvs.Listed>, t0: Table,
                 strangers: seq<Ipvs.Stranger>)
    requires Ipvs.Listing(listing, t0, strangers) && LeftOver(left, goal.Keys, listing)
    ensures left == Ipvs.Aim(goal, listing).Keys - t0.Keys
  {
    forall vs | vs in goal && vs !in t0
      ensures Ipvs.Shadowed(vs, listing) <==> vs.protocol == TCP && Ipvs.Strange(Ipvs.Shadow(vs)) in listing
    {
      assert Ipvs.Known(vs) !in listing;
      if vs.protocol == TCP && Ipvs.Strange(Ipvs.Shadow(vs)) in listing {
        var j :| 0 <= j < |listing| && listing[j] == Ipvs.Strange(Ipvs.Shadow(vs));
        assert Ipvs.ShadowedAt(vs, listing, j);
      }
    }
  }

  /** Lines 75-117 for a server reported without a protocol name, which is taken for a TCP one. */
  method SyncStranger(lvs: Ipvs.Handler, stranger: Ipvs.Stranger, vip: IP, net: AddrText, ports: PortMaps,
                      m: EndpointsMap,
                      ghost eps: seq<Endpoints>, ghost left: set<VirtualServer>, ghost backs: map<VirtualServer,
                      set<Backend>>,
                      ghost wanted: set<VirtualServer>)
    returns (rest: PortMaps)
    requires lvs.Valid() && left <= wanted && PortsReady(ports, vip, left, backs, m, eps) && SlotsHold(m, eps)
    requires forall vs | vs in left :: vs.address == vip
    modifies lvs
    ensures lvs.Valid() && lvs.faults == old(lvs.faults) && lvs.table == old(lvs.table)
    ensures PortsReady(rest, vip, left - {Ipvs.Twin(stranger)}, backs, m, eps)
    ensures Ignored(old(lvs.log), lvs.log, stranger, wanted)
  {
    hide SlotsHold;
    hide HasSlots;
    hide ServicesBackends;
    hide Represents;
    hide Ipvs.Ran;
    hide Ipvs.Replay;
    rest := ports;
    var twin := Ipvs.Twin(stranger);
    if stranger.address != vip {
      assert left - {twin} == left;
      var ok := lvs.Write(Ipvs.DeleteStranger(stranger));
      return;
    }
    assert twin == VirtualServer(vip, TCP, stranger.port);
    if stranger.port !in ports[Index(TCP)] {
      assert left - {twin} == left;
      var ok := lvs.Write(Ipvs.DeleteStranger(stranger));
    } else {
      var svcs := ports[Index(TCP)][stranger.port];
      DrainReady(ports, vip, left, backs, m, eps, twin);
      rest := Drain(ports, twin);
      var expected := GetExpectRSs(svcs, m, stranger.port, net, eps);
      var rss, ok := lvs.GetRealServers(Ipvs.Strange(stranger));
      if !ok { return; }
      AddToStranger(lvs, stranger, expected);
    }
  }

  /** `addRealServers` for a stranger: one call per expected entry, in map order, and none of them reaches it. */
  method AddToStranger(lvs: Ipvs.Handler, stranger: Ipvs.Stranger, expected: map<string, RealServer>)
    requires lvs.Valid()
    modifies lvs
    ensures lvs.Valid() && lvs.faults == old(lvs.faults) && lvs.table == old(lvs.table)
    ensures old(lvs.log) <= lvs.log && |lvs.log| == |old(lvs.log)| + |expected|
    ensures forall i | |old(lvs.log)| <= i < |lvs.log| :: NamesStranger(lvs.log[i].move, stranger)
  {
    hide Ipvs.Ran;
    hide Ipvs.Replay;
    var keys := Enumerate(expected.Keys);
    for i := 0 to |keys|
      invariant lvs.Valid() && lvs.faults == old(lvs.faults) && lvs.table == old(lvs.table)
      invariant old(lvs.log) <= lvs.log && |lvs.log| == |old(lvs.log)| + i
      invariant forall k | |old(lvs.log)| <= k < |lvs.log| :: NamesStranger(lvs.log[k].move, stranger)
    {
      assert keys[i] in expected.Keys;
      var ok := lvs.Write(Ipvs.AddToStranger(stranger, expected[keys[i]]));
    }
  }

  /** Lines 74-118: every listed server. */
  method SyncExisting(lvs: Ipvs.Handler, listing: seq<Ipvs.Listed>, vip: IP, net: AddrText, ports: PortMaps,
                      m: EndpointsMap,
                      ghost eps: seq<Endpoints>, ghost backs: map<VirtualServer, set<Backend>>, ghost goal: Table,
                      ghost aim: Table)
    returns (rest: PortMaps)
    requires lvs.Valid() && Ipvs.Listing(listing, lvs.table, lvs.strangers) && net.Lawful()
    requires aim == Ipvs.Aim(goal, listing)
    requires PortsReady(ports, vip, goal.Keys, backs, m, eps) && SlotsHold(m, eps) && GoalOf(goal, backs, vip, net)
    modifies lvs
    ensures lvs.Valid() && lvs.faults >= old(lvs.faults)
    ensures PortsReady(rest, vip, aim.Keys - old(lvs.table).Keys, backs, m, eps)
    ensures Synced(lvs.strangers, old(lvs.table), lvs.table, old(lvs.log), lvs.log, backs, net, aim, goal.Keys,
                   lvs.faults == old(lvs.faults))
  {
    hide PortsReady;
    hide SlotsHold;
    hide AllCanonical;
    hide Covered;
    hide Ipvs.RightFrom;
    hide Ipvs.Ran;
    hide Ipvs.Replay;
    hide Stepped;
    hide Logged;
    hide Ignored;
    hide LeftOver;
    AimGoal(goal, listing, backs, vip, net);
    hide Ipvs.Aim;
    HalfwayNone(listing, lvs.table, lvs.log, backs, net, aim, goal.Keys);
    hide Halfway;
    hide LoggedSoFar;
    hide GoalOf;
    hide Synced;
    rest := ports;
    ghost var left := goal.Keys;
    LeftNone(goal.Keys);
    assert listing[..0] == [];
    for i := 0 to |listing|
      invariant lvs.Valid() && lvs.faults >= old(lvs.faults)
      invariant LeftOver(left, goal.Keys, listing[..i]) && left <= goal.Keys
      invariant PortsReady(rest, vip, left, backs, m, eps)
      invariant Halfway(listing, i, old(lvs.table), lvs.table, aim, lvs.faults == old(lvs.faults))
      invariant LoggedSoFar(listing, i, old(lvs.log), lvs.log, old(lvs.table), backs, net, aim, goal.Keys,
                            lvs.faults == old(lvs.faults))
    {
      var item := listing[i];
      assert item in listing;
      HalfwayNext(listing, i, old(lvs.table), lvs.table, aim, lvs.faults == old(lvs.faults));
      LeftNext(left, goal.Keys, listing, i);
      ghost var waiting := left - {Ipvs.Drains(item)};
      ghost var t, log, faults := lvs.table, lvs.log, lvs.faults;
      ghost var clean := faults == old(lvs.faults);
      match item {
        case Known(vs) =>
          LeftListed(left, goal, listing, i);
          assert waiting == left - {vs};
          rest := SyncOne(lvs, vs, vip, net, rest, m, eps, left, backs, aim);
          ghost var ok, clean' := lvs.faults == faults, lvs.faults == old(lvs.faults);
          HalfwayStep(listing, i, old(lvs.table), t, lvs.table, aim, clean, ok, clean');
          LoggedStep(listing, i, old(lvs.log), log, lvs.log, old(lvs.table), t, backs, net, aim, goal.Keys, clean, ok,
            clean');
        case Strange(stranger) =>
          assert waiting == left - {Ipvs.Twin(stranger)};
          rest := SyncStranger(lvs, stranger, vip, net, rest, m, eps, left, backs, goal.Keys);
          HalfwayStep(listing, i, old(lvs.table), t, lvs.table, aim, clean, true, clean);
          IgnoredStep(listing, i, old(lvs.log), log, lvs.log, old(lvs.table), backs, net, aim, goal.Keys, clean, clean);
      }
      left := waiting;
    }
    assert listing[..|listing|] == listing;
    LeftDone(left, goal, listing, old(lvs.table), lvs.strangers);
    HalfwayDone(listing, lvs.strangers, old(lvs.table), lvs.table, old(lvs.log), lvs.log, backs, net, aim, goal.Keys,
      lvs.faults == old(lvs.faults));
  }

  lemma AimGoal(goal: Table, listing: seq<Ipvs.Listed>, backs: map<VirtualServer, set<Backend>>, vip: IP, net: AddrText)
    requires GoalOf(goal, backs, vip, net)
    ensures GoalOf(Ipvs.Aim(goal, listing), backs, vip, net) && Ipvs.Aim(goal, listing).Keys <= backs.Keys
    ensures forall vs | vs in goal :: vs.address == vip
  {
    hide Ipvs.Shadowed;
    hide RealServers;
  }

  /** The table after creating the servers of the first `i` numbers. */
  ghost predicate Created(numbers: seq<Port>, i: nat, vip: IP, q: Protocol, t0: Table, t: Table, goal: Table,
                          clean: bool) {
    && i <= |numbers|
    && (forall vs: VirtualServer | !(vs.address == vip && vs.protocol == q && vs.port in numbers[..i]) ::
          Agree(t, t0, vs))
    && (clean ==> forall k | 0 <= k < i :: Agree(t, goal, VirtualServer(vip, q, numbers[k])))
  }

  lemma CreatedNone(numbers: seq<Port>, vip: IP, q: Protocol, t: Table, goal: Table)
    ensures Created(numbers, 0, vip, q, t, t, goal, true)
  {
  }

  lemma NotYetCreated(numbers: seq<Port>, i: nat, vip: IP, q: Protocol, t0: Table, t: Table, goal: Table, clean: bool)
    requires NoDuplicates(numbers) && i < |numbers| && Created(numbers, i, vip, q, t0, t, goal, clean)
    ensures Agree(t, t0, VirtualServer(vip, q, numbers[i]))
  {
    assert numbers[i] !in numbers[..i];
  }

  lemma CreatedStep(numbers: seq<Port>, i: nat, vip: IP, q: Protocol, t0: Table, t: Table, t': Table, goal: Table,
                    clean: bool, clean': bool)
    requires NoDuplicates(numbers) && i < |numbers| && (clean' ==> clean)
    requires Created(numbers, i, vip, q, t0, t, goal, clean)
    requires forall vs | vs != VirtualServer(vip, q, numbers[i]) :: Agree(t', t, vs)
    requires clean' ==> Agree(t', goal, VirtualServer(vip, q, numbers[i]))
    ensures Created(numbers, i + 1, vip, q, t0, t', goal, clean')
  {
    assert numbers[..i + 1] == numbers[..i] + [numbers[i]];
    forall vs: VirtualServer | !(vs.address == vip && vs.protocol == q && vs.port in numbers[..i + 1])
      ensures Agree(t', t0, vs)
    {
      assert Agree(t, t0, vs) && Agree(t', t, vs);
    }
    if clean' {
      forall k | 0 <= k < i + 1 ensures Agree(t', goal, VirtualServer(vip, q, numbers[k])) {
        var vs := VirtualServer(vip, q, numbers[k]);
        if k < i { assert Agree(t, goal, vs) && Agree(t', t, vs); }
      }
    }
  }

  lemma CreatedDone(numbers: seq<Port>, vip: IP, q: Protocol, t0: Table, t: Table, goal: Table, clean: bool,
                    mine: set<VirtualServer>)
    requires Created(numbers, |numbers|, vip, q, t0, t, goal, clean)
    requires forall vs :: vs in mine <==> vs.address == vip && vs.protocol == q && vs.port in numbers
    ensures forall vs | vs !in mine :: Agree(t, t0, vs)
    ensures clean ==> forall vs | vs in mine :: Agree(t, goal, vs)
  {
    assert numbers[..|numbers|] == numbers;
    if clean {
      forall vs | vs in mine ensures Agree(t, goal, vs) {
        var k :| 0 <= k < |numbers| && numbers[k] == vs.port;
        assert vs == VirtualServer(vip, q, numbers[k]);
      }
    }
  }

  /** The ports of one protocol lead to virtual servers of `goal` and yield their backends. */
  ghost predicate PortReady(ports: map<Port, seq<Service>>, q: Protocol, vip: IP, net: AddrText, m: EndpointsMap,
                            eps: seq<Endpoints>, backs: map<VirtualServer, set<Backend>>, goal: Table)
  {
    forall p | p in ports ::
      && HasSlots(m, ports[p])
      && var vs := VirtualServer(vip, q, p);
         && vs in goal && vs in backs && goal[vs] == RealServers(net, backs[vs])
         && ServicesBackends(ports[p], p, eps) == backs[vs]
  }

  method CreateNumbers(lvs: Ipvs.Handler, numbers: seq<Port>, q: Protocol, vip: IP, net: AddrText, ports: PortMaps,
                       m: EndpointsMap,
                       ghost eps: seq<Endpoints>, ghost backs: map<VirtualServer, set<Backend>>, ghost goal: Table)
    requires lvs.Valid() && |ports| == 2 && Lists(numbers, ports[Index(q)].Keys) && SlotsHold(m, eps)
    requires PortReady(ports[Index(q)], q, vip, net, m, eps, backs, goal)
    requires forall p | p in numbers :: VirtualServer(vip, q, p) !in lvs.table
    modifies lvs
    ensures lvs.Valid() && lvs.faults >= old(lvs.faults)
    ensures old(lvs.log) <= lvs.log && Ipvs.RightFrom(lvs.log, |old(lvs.log)|, goal)
    ensures |numbers| == 0 ==> lvs.log == old(lvs.log)
    ensures Created(numbers, |numbers|, vip, q, old(lvs.table), lvs.table, goal, lvs.faults == old(lvs.faults))
  {
    hide SlotsHold;
    hide HasSlots;
    hide ServicesBackends;
    hide RealServers;
    hide Created;
    hide Ipvs.Ran;
    hide Ipvs.Replay;
    hide Ipvs.RightFrom;
    Ipvs.RightNone(lvs.log, goal);
    CreatedNone(numbers, vip, q, lvs.table, goal);
    for i := 0 to |numbers|
      invariant lvs.Valid() && lvs.faults >= old(lvs.faults)
      invariant old(lvs.log) <= lvs.log && Ipvs.RightFrom(lvs.log, |old(lvs.log)|, goal)
      invariant i == 0 ==> lvs.log == old(lvs.log)
      invariant Created(numbers, i, vip, q, old(lvs.table), lvs.table, goal, lvs.faults == old(lvs.faults))
    {
      var port := numbers[i];
      assert port in numbers && port in ports[Index(q)];
      var vs := VirtualServer(vip, q, port);
      NotYetCreated(numbers, i, vip, q, old(lvs.table), lvs.table, goal, lvs.faults == old(lvs.faults));
      ghost var t, log, clean := lvs.table, lvs.log, lvs.faults == old(lvs.faults);
      CreateOne(lvs, vs, net, ports[Index(q)][port], m, eps, backs, goal);
      CreatedStep(numbers, i, vip, q, old(lvs.table), t, lvs.table, goal, clean, lvs.faults == old(lvs.faults));
      Ipvs.RightJoin(log, lvs.log, |old(lvs.log)|, goal);
    }
  }

  /** Lines 126-134: the virtual servers of one protocol that are missing. */
  method CreateMissing(lvs: Ipvs.Handler, q: Protocol, vip: IP, net: AddrText, ports: PortMaps, m: EndpointsMap,
                       ghost eps: seq<Endpoints>, ghost left: set<VirtualServer>,
                       ghost backs: map<VirtualServer, set<Backend>>, ghost goal: Table)
    requires lvs.Valid() && net.Lawful() && left <= goal.Keys
    requires PortsReady(ports, vip, left, backs, m, eps) && SlotsHold(m, eps) && GoalOf(goal, backs, vip, net)
    requires forall vs | vs in left && vs.protocol == q :: vs !in lvs.table
    modifies lvs
    ensures lvs.Valid() && lvs.faults >= old(lvs.faults)
    ensures old(lvs.log) <= lvs.log && Ipvs.RightFrom(lvs.log, |old(lvs.log)|, goal)
    ensures left == {} ==> lvs.log == old(lvs.log)
    ensures forall vs | !(vs in left && vs.protocol == q) :: Agree(lvs.table, old(lvs.table), vs)
    ensures lvs.faults == old(lvs.faults) ==> forall vs | vs in left && vs.protocol == q :: Agree(lvs.table, goal, vs)
  {
    hide PortsReady;
    hide GoalOf;
    hide SlotsHold;
    hide PortReady;
    hide Created;
    hide Ipvs.Ran;
    hide Ipvs.Replay;
    hide Ipvs.RightFrom;
    MissingReady(ports, q, vip, net, m, eps, left, backs, goal);
    var numbers := Enumerate(ports[Index(q)].Keys);
    ghost var mine := set vs | vs in left && vs.protocol == q;
    MissingNumbers(numbers, ports[Index(q)], q, vip, left, mine);
    CreateNumbers(lvs, numbers, q, vip, net, ports, m, eps, backs, goal);
    CreatedDone(numbers, vip, q, old(lvs.table), lvs.table, goal, lvs.faults == old(lvs.faults), mine);
  }

  lemma MissingReady(ports: PortMaps, q: Protocol, vip: IP, net: AddrText, m: EndpointsMap, eps: seq<Endpoints>,
                     left: set<VirtualServer>, backs: map<VirtualServer, set<Backend>>, goal: Table)
    requires left <= goal.Keys && PortsReady(ports, vip, left, backs, m, eps) && GoalOf(goal, backs, vip, net)
    ensures |ports| == 2
    ensures PortReady(ports[Index(q)], q, vip, net, m, eps, backs, goal)
    ensures forall p: Port :: p in ports[Index(q)] <==> VirtualServer(vip, q, p) in left
    ensures forall vs | vs in left :: vs.address == vip
  {
    hide HasSlots;
    hide ServicesBackends;
    hide RealServers;
  }

  lemma MissingNumbers(numbers: seq<Port>, ports: map<Port, seq<Service>>, q: Protocol, vip: IP,
                       left: set<VirtualServer>, mine: set<VirtualServer>)
    requires Lists(numbers, ports.Keys) && |numbers| == |ports.Keys|
    requires forall p: Port :: p in ports <==> VirtualServer(vip, q, p) in left
    requires forall vs | vs in left :: vs.address == vip
    requires mine == set vs | vs in left && vs.protocol == q
    ensures forall vs :: vs in mine <==> vs.address == vip && vs.protocol == q && vs.port in numbers
    ensures forall p | p in numbers :: VirtualServer(vip, q, p) in mine
    ensures left == {} ==> |numbers| == 0
  {
    assert left == {} ==> ports.Keys == {};
    forall vs ensures vs in mine <==> vs.address == vip && vs.protocol == q && vs.port in numbers {
      assert vs.port in numbers <==> VirtualServer(vip, q, vs.port) in left;
    }
  }

  /** Lines 127-133. */
  method CreateOne(lvs: Ipvs.Handler, vs: VirtualServer, net: AddrText, svcs: seq<Service>, m: EndpointsMap,
                   ghost eps: seq<Endpoints>, ghost backs: map<VirtualServer, set<Backend>>, ghost goal: Table)
    requires lvs.Valid() && vs !in lvs.table && vs in goal && vs in backs && goal[vs] == RealServers(net, backs[vs])
    requires HasSlots(m, svcs) && SlotsHold(m, eps) && ServicesBackends(svcs, vs.port, eps) == backs[vs]
    modifies lvs
    ensures lvs.Valid() && lvs.faults >= old(lvs.faults)
    ensures old(lvs.log) <= lvs.log && Ipvs.RightFrom(lvs.log, |old(lvs.log)|, goal)
    ensures forall vs' | vs' != vs :: Agree(lvs.table, old(lvs.table), vs')
    ensures lvs.faults == old(lvs.faults) ==> Agree(lvs.table, goal, vs)
  {
    hide PortsReady;
    hide SlotsHold;
    hide AllCanonical;
    hide HasSlots;
    hide ServicesBackends;
    hide Represents;
    hide RealServers;
    var ok := lvs.Write(Ipvs.AddServer(vs));
    if !ok { return; }
    var expected := GetExpectRSs(svcs, m, vs.port, net, eps);
    ExpectedValues(expected, backs[vs], net);
    ghost var mid := lvs.log;
    AddRealServers(lvs, vs, expected, goal);
    assert lvs.log[..|mid|] == mid;
  }

  // ------------------------------------------------- buildIptables

  /** The ipset entries of a set of virtual servers. */
  function Entries(vipText: string, servers: set<VirtualServer>): set<string> {
    set vs | vs in servers :: Ipset.EntryText(vipText, vs.protocol, vs.port)
  }

  /** `ports` holds exactly the virtual servers in `left`. */
  ghost predicate PortsOf(ports: PortMaps, vip: IP, left: set<VirtualServer>) {
    && |ports| == 2
    && (forall q, p: Port :: p in ports[Index(q)] <==> VirtualServer(vip, q, p) in left)
    && forall vs | vs in left :: vs.address == vip
  }

  /** Lines 46-55 of iptables.go. */
  method ExpectedEntries(vipText: string, ports: PortMaps, ghost vip: IP,
                         ghost servers: set<VirtualServer>) returns (expected: set<string>)
    requires PortsOf(ports, vip, servers)
    ensures expected == Entries(vipText, servers)
  {
    hide Ipset.EntryText;
    expected := {};
    ghost var done: set<VirtualServer> := {};
    for i := 0 to 2
      invariant done == (set vs | vs in servers && Index(vs.protocol) < i)
      invariant expected == Entries(vipText, done)
    {
      var q := if i == 1 then UDP else TCP;
      var numbers := Enumerate(ports[i].Keys);
      ghost var before := done;
      for k := 0 to |numbers|
        invariant forall vs :: vs in done <==>
                    vs in before || (vs.address == vip && vs.protocol == q && vs.port in numbers[..k])
        invariant expected == Entries(vipText, done)
      {
        assert numbers[..k + 1] == numbers[..k] + [numbers[k]];
        expected := expected + {Ipset.EntryText(vipText, q, numbers[k])};
        done := done + {VirtualServer(vip, q, numbers[k])};
      }
      assert numbers[..|numbers|] == numbers;
      forall vs: VirtualServer ensures vs in done <==> vs in servers && Index(vs.protocol) < i + 1 {
        assert vs.protocol == q ==> (vs.port in numbers <==> VirtualServer(vip, q, vs.port) in servers);
      }
    }
    assert done == servers;
  }

  /** Lines 56-75 of iptables.go: delete what is not expected, then add what is missing. */
  method SyncEntries(ipset: Ipset.Handler, expected: set<string>)
    requires ipset.Valid() && ipset.created
    modifies ipset
    ensures ipset.Valid() && ipset.faults >= old(ipset.faults)
    ensures old(ipset.log) <= ipset.log && Ipset.RightFrom(ipset.log, |old(ipset.log)|, expected)
    ensures ipset.faults == old(ipset.faults) ==> ipset.entries == expected
    ensures old(ipset.entries) == expected ==> ipset.log == old(ipset.log)
  {
    hide Ipset.Replay;
    var existing, ok := ipset.ListEntries();
    if !ok { return; }
    var missing := expected;
    for i := 0 to |existing|
      invariant ipset.Valid() && ipset.created && ipset.faults >= old(ipset.faults)
      invariant old(ipset.log) <= ipset.log && Ipset.RightFrom(ipset.log, |old(ipset.log)|, expected)
      invariant missing == expected - (set e | e in existing[..i])
      invariant forall k | i <= k < |existing| :: existing[k] in ipset.entries
      invariant old(ipset.entries) * expected <= ipset.entries <= old(ipset.entries)
      invariant ipset.faults == old(ipset.faults) ==>
              forall k | 0 <= k < i :: existing[k] in expected || existing[k] !in ipset.entries
      invariant old(ipset.entries) == expected ==> ipset.log == old(ipset.log)
    {
      var e := existing[i];
      assert e in existing && e !in existing[..i];
      assert existing[..i + 1] == existing[..i] + [e];
      if e !in missing {
        assert e !in expected;
        var deleted := ipset.DelEntry(e);
      } else {
        missing := missing - {e};
      }
    }
    assert existing[..|existing|] == existing;
    assert missing == expected - old(ipset.entries);
    assert ipset.faults == old(ipset.faults) ==> ipset.entries == old(ipset.entries) * expected by {
      if ipset.faults == old(ipset.faults) {
        forall e | e in ipset.entries ensures e in expected { assert e in existing; }
      }
    }
    ghost var mid := ipset.log;
    AddMissing(ipset, missing, expected);
    RightEntries(mid, ipset.log, |old(ipset.log)|, expected);
  }

  /** From `from` on, the calls only add entries of `expected`. */
  ghost predicate AddsOnly(log: seq<Ipset.Call>, from: nat, expected: set<string>) {
    forall i | from <= i < |log| :: log[i].add && log[i].entry in expected
  }

  lemma AddsOnlyAppend(log: seq<Ipset.Call>, from: nat, expected: set<string>, c: Ipset.Call)
    requires AddsOnly(log, from, expected) && c.add && c.entry in expected
    ensures AddsOnly(log + [c], from, expected)
  {
  }

  lemma RightEntries(mid: seq<Ipset.Call>, log: seq<Ipset.Call>, from: nat, expected: set<string>)
    requires mid <= log && Ipset.RightFrom(mid, from, expected) && AddsOnly(log, |mid|, expected)
    ensures Ipset.RightFrom(log, from, expected)
  {
    forall i | from <= i < |log| ensures log[i].add == (log[i].entry in expected) {
      if i < |mid| { assert log[i] == mid[i]; }
    }
  }

  /** Lines 71-75 of iptables.go; `List` sorts the set. */
  method AddMissing(ipset: Ipset.Handler, missing: set<string>, ghost expected: set<string>)
    requires ipset.Valid() && ipset.created && missing <= expected
    modifies ipset
    ensures ipset.Valid() && ipset.faults >= old(ipset.faults)
    ensures old(ipset.log) <= ipset.log
    ensures AddsOnly(ipset.log, |old(ipset.log)|, expected)
    ensures ipset.faults == old(ipset.faults) ==> ipset.entries == old(ipset.entries) + missing
    ensures missing == {} ==> ipset.log == old(ipset.log)
  {
    var list := SortedList(missing);
    AddListed(ipset, list, missing, expected);
  }

  method AddListed(ipset: Ipset.Handler, list: seq<string>, ghost missing: set<string>, ghost expected: set<string>)
    requires ipset.Valid() && ipset.created && missing <= expected
    requires |list| == |missing| && forall e :: e in list <==> e in missing
    modifies ipset
    ensures ipset.Valid() && ipset.faults >= old(ipset.faults)
    ensures old(ipset.log) <= ipset.log
    ensures AddsOnly(ipset.log, |old(ipset.log)|, expected)
    ensures ipset.faults == old(ipset.faults) ==> ipset.entries == old(ipset.entries) + missing
    ensures missing == {} ==> ipset.log == old(ipset.log)
  {
    assert AddsOnly(ipset.log, |ipset.log|, expected);
    hide *;
    for i := 0 to |list|
      invariant ipset.Valid() && ipset.created && ipset.faults >= old(ipset.faults)
      invariant old(ipset.log) <= ipset.log && (i == 0 ==> ipset.log == old(ipset.log))
      invariant AddsOnly(ipset.log, |old(ipset.log)|, expected)
      invariant ipset.faults == old(ipset.faults) ==> ipset.entries == old(ipset.entries) + (set e | e in list[..i])
    {
      assert list[i] in list;
      assert list[..i + 1] == list[..i] + [list[i]];
      ghost var log := ipset.log;
      var ok := ipset.AddEntry(list[i]);
      AddsOnlyAppend(log, |old(ipset.log)|, expected, Ipset.Call(true, list[i], ok));
    }
    assert list[..|list|] == list;
  }

  /** `entries` are the texts of `servers`, written out. */
  ghost predicate Written(entries: set<string>, ip: string, vip: IP, servers: set<VirtualServer>) {
    && (forall p: Port :: ip + ",tcp:" + Decimal.Digits(p) in entries <==> VirtualServer(vip, TCP, p) in servers)
    && (forall p: Port :: ip + ",udp:" + Decimal.Digits(p) in entries <==> VirtualServer(vip, UDP, p) in servers)
    && forall e | e in entries ::
         exists p: Port :: e == ip + ",tcp:" + Decimal.Digits(p) || e == ip + ",udp:" + Decimal.Digits(p)
  }

  /** They are the texts of what the services declare. */
  ghost predicate WrittenFor(entries: set<string>, ip: string, svcs: seq<Service>) {
    && (forall p: Port :: ip + ",tcp:" + Decimal.Digits(p) in entries <==> Declared(svcs, TCP, p))
    && (forall p: Port :: ip + ",udp:" + Decimal.Digits(p) in entries <==> Declared(svcs, UDP, p))
    && forall e | e in entries ::
         exists p: Port :: e == ip + ",tcp:" + Decimal.Digits(p) || e == ip + ",udp:" + Decimal.Digits(p)
  }

  lemma EntriesWritten(ip: string, servers: set<VirtualServer>, vip: IP)
    requires forall vs | vs in servers :: vs.address == vip
    ensures Written(Entries(ip, servers), ip, vip, servers)
  {
    hide Decimal.Digits;
    var entries := Entries(ip, servers);
    forall q: Protocol, p: Port ensures Ipset.EntryText(ip, q, p) in entries <==> VirtualServer(vip, q, p) in servers {
      EntryOf(ip, servers, vip, q, p);
    }
    forall p: Port
      ensures ip + ",tcp:" + Decimal.Digits(p) in entries <==> VirtualServer(vip, TCP, p) in servers
      ensures ip + ",udp:" + Decimal.Digits(p) in entries <==> VirtualServer(vip, UDP, p) in servers
    {
      Ipset.EntryTextIs(ip, p);
    }
    forall e | e in entries
      ensures exists p: Port :: e == ip + ",tcp:" + Decimal.Digits(p) || e == ip + ",udp:" + Decimal.Digits(p)
    {
      var vs :| vs in servers && e == Ipset.EntryText(ip, vs.protocol, vs.port);
      Ipset.EntryTextIs(ip, vs.port);
    }
  }

  lemma EntryOf(ip: string, servers: set<VirtualServer>, vip: IP, q: Protocol, p: Port)
    requires forall vs | vs in servers :: vs.address == vip
    ensures Ipset.EntryText(ip, q, p) in Entries(ip, servers) <==> VirtualServer(vip, q, p) in servers
  {
    hide Ipset.EntryText;
    if Ipset.EntryText(ip, q, p) in Entries(ip, servers) {
      var vs :| vs in servers && Ipset.EntryText(ip, vs.protocol, vs.port) == Ipset.EntryText(ip, q, p);
      Ipset.EntryTextInjective(ip, vs.protocol, vs.port, ip, q, p);
      assert vs == VirtualServer(vip, q, p);
    }
  }

  /** Some service declares the protocol and the number. */
  ghost predicate Declared(svcs: seq<Service>, q: Protocol, p: Port) {
    exists s, sp | s in svcs && sp in s.ports :: sp.protocol == q && sp.port == p
  }

  /** The entries a build wants, written out. */
  lemma WorldWritten(svcs: seq<Service>, eps: seq<Endpoints>, vip: IP, net: AddrText)
    ensures WrittenFor(Entries(net.show(vip), World(svcs, eps, vip, net).VirtualServers()), net.show(vip), svcs)
  {
    var w := World(svcs, eps, vip, net);
    EntriesWritten(net.show(vip), w.VirtualServers(), vip);
    hide Entries;
    hide Decimal.Digits;
    forall q: Protocol, p: Port ensures VirtualServer(vip, q, p) in w.VirtualServers() <==> Declared(svcs, q, p) {
      if Declared(svcs, q, p) {
        var s, sp :| s in svcs && sp in s.ports && sp.protocol == q && sp.port == p;
        assert VirtualServer(vip, sp.protocol, sp.port) in w.VirtualServers();
      }
    }
  }

  /** `buildIptables`. */
  method BuildIptables(ipset: Ipset.Handler, vipText: string, ports: PortMaps, ghost vip: IP,
                       ghost servers: set<VirtualServer>)
    requires ipset.Valid() && PortsOf(ports, vip, servers)
    modifies ipset
    ensures ipset.Valid() && ipset.faults >= old(ipset.faults)
    ensures old(ipset.log) <= ipset.log && Ipset.RightFrom(ipset.log, |old(ipset.log)|, Entries(vipText, servers))
    ensures ipset.faults == old(ipset.faults) ==> ipset.entries == Entries(vipText, servers)
    ensures ipset.faults == old(ipset.faults) ==> Written(ipset.entries, vipText, vip, servers)
    ensures old(ipset.entries) == Entries(vipText, servers) ==> ipset.log == old(ipset.log)
  {
    EntriesWritten(vipText, servers, vip);
    hide Written;
    var ok := ipset.CreateSet();
    if !ok { return; }
    var expected := ExpectedEntries(vipText, ports, vip, servers);
    SyncEntries(ipset, expected);
  }

  // ------------------------------------------------- Build

  ghost function Backs(w: World): map<VirtualServer, set<Backend>> {
    map vs | vs in w.VirtualServers() :: w.Backends(vs.protocol, vs.port)
  }

  lemma Ready(w: World, m: EndpointsMap, ports: PortMaps)
    requires HasSlots(m, w.svcs) && PortsFor(ports, w, w.VirtualServers())
    ensures PortsReady(ports, w.vip, w.Desired().Keys, Backs(w), m, w.eps)
    ensures GoalOf(w.Desired(), Backs(w), w.vip, w.net)
  {
    forall q, p | p in ports[Index(q)]
      ensures HasSlots(m, ports[Index(q)][p])
      ensures ServicesBackends(ports[Index(q)][p], p, w.eps) == w.Backends(q, p)
    {
    }
  }

  lemma PortsForOf(w: World, ports: PortMaps)
    requires PortsFor(ports, w, w.VirtualServers())
    ensures PortsOf(ports, w.vip, w.VirtualServers())
  {
  }

  lemma CanonicalBacks(w: World)
    ensures Canonical(w.Desired(), Backs(w), w.net) <==> w.CanonicalBackends()
    ensures AllCovered(w.Desired(), Backs(w), w.net) <==> w.CoveredBackends()
  {
    hide AllCanonical;
    hide Covered;
    hide RealServers;
    forall vs | vs in w.VirtualServers()
      ensures vs in w.Desired() && vs in Backs(w) && Backs(w)[vs] == w.Backends(vs.protocol, vs.port)
    {
    }
  }

  /** The passes together: `t1` after the listed servers, then the missing TCP and UDP ones. */
  lemma Finished(t0: Table, t1: Table, t2: Table, t3: Table, goal: Table)
    requires t1.Keys <= t0.Keys && forall vs | vs in t0 :: Agree(t1, goal, vs)
    requires forall vs | !(vs in goal.Keys - t0.Keys && vs.protocol == TCP) :: Agree(t2, t1, vs)
    requires forall vs | vs in goal.Keys - t0.Keys && vs.protocol == TCP :: Agree(t2, goal, vs)
    requires forall vs | !(vs in goal.Keys - t0.Keys && vs.protocol == UDP) :: Agree(t3, t2, vs)
    requires forall vs | vs in goal.Keys - t0.Keys && vs.protocol == UDP :: Agree(t3, goal, vs)
    ensures t3 == goal
  {
    forall vs ensures Agree(t3, goal, vs) {
      var left := goal.Keys - t0.Keys;
      if !(vs in left && vs.protocol == UDP) { assert Agree(t3, t2, vs); }
      if !(vs in left && vs.protocol == TCP) { assert Agree(t2, t1, vs); }
    }
    forall vs ensures vs in t3.Keys <==> vs in goal.Keys { assert Agree(t3, goal, vs); }
    forall vs | vs in t3 ensures t3[vs] == goal[vs] { assert Agree(t3, goal, vs); }
  }

  /** Lines 68-135: reconcile IPVS with what the port and endpoints maps call for. */
  method BuildIpvs(lvs: Ipvs.Handler, vip: IP, net: AddrText, ports: PortMaps, m: EndpointsMap,
                   ghost eps: seq<Endpoints>, ghost backs: map<VirtualServer, set<Backend>>, ghost goal: Table)
    returns (ghost listing: seq<Ipvs.Listed>)
    requires lvs.Valid() && net.Lawful()
    requires PortsReady(ports, vip, goal.Keys, backs, m, eps) && SlotsHold(m, eps) && GoalOf(goal, backs, vip, net)
    modifies lvs
    ensures lvs.Valid() && lvs.faults >= old(lvs.faults) && old(lvs.log) <= lvs.log
    ensures lvs.faults == old(lvs.faults) ==>
              Ipvs.Listing(listing, old(lvs.table), lvs.strangers) && lvs.table == Ipvs.Aim(goal, listing)
    ensures Ipvs.NoClash(goal, lvs.strangers) ==> Ipvs.Aim(goal, listing) == goal
    ensures AllCovered(goal, backs, net) ==> Ipvs.RightFrom(lvs.log, |old(lvs.log)|, Ipvs.Aim(goal, listing))
    ensures lvs.faults == old(lvs.faults) && Ipvs.NoClash(goal, lvs.strangers) && old(lvs.table) == goal &&
            Ipvs.RightFrom(lvs.log, |old(lvs.log)|, goal) ==>
              AllCovered(goal, backs, net)
    ensures Canonical(goal, backs, net) && old(lvs.table) == goal && lvs.strangers == [] ==> lvs.log == old(lvs.log)
    ensures lvs.faults == old(lvs.faults) && Ipvs.NoClash(goal, lvs.strangers) && old(lvs.table) == goal &&
            lvs.log == old(lvs.log) ==>
              Canonical(goal, backs, net) && lvs.strangers == []
  {
    hide PortsReady;
    hide SlotsHold;
    hide GoalOf;
    hide AllCanonical;
    hide Canonical;
    hide AllCovered;
    hide Ipvs.Ran;
    hide Ipvs.Replay;
    hide Ipvs.RightFrom;
    hide Ipvs.Aim;
    hide Ipvs.Listing;
    hide Ipvs.Shadowed;
    hide Ipvs.NoClash;
    hide Covered;
    hide RealServers;
    var items, ok := lvs.GetVirtualServers();
    if !ok {
      listing := [];
      NothingListed(goal);
      Ipvs.RightNone(lvs.log, Ipvs.Aim(goal, listing));
      return;
    }
    listing := items;
    ghost var aim := Ipvs.Aim(goal, listing);
    AimGoal(goal, listing, backs, vip, net);
    AimCovered(goal, listing, backs, net);
    Ipvs.NoneDrained(goal, lvs.strangers);
    if Ipvs.NoClash(goal, lvs.strangers) { Ipvs.NoClashAim(goal, lvs.table, lvs.strangers, listing); }
    var rest := SyncExisting(lvs, items, vip, net, ports, m, eps, backs, goal, aim);
    ghost var left, log1 := aim.Keys - old(lvs.table).Keys, lvs.log;
    CreateAll(lvs, vip, net, rest, m, eps, left, backs, aim, old(lvs.table));
    if AllCovered(goal, backs, net) {
      Ipvs.RightJoin(log1, lvs.log, |old(lvs.log)|, aim);
    }
    if Ipvs.RightFrom(lvs.log, |old(lvs.log)|, aim) {
      Ipvs.RightSplit(log1, lvs.log, |old(lvs.log)|, aim);
    }
  }

  /** Lines 120-135: what is still missing, TCP first. */
  method CreateAll(lvs: Ipvs.Handler, vip: IP, net: AddrText, ports: PortMaps, m: EndpointsMap,
                   ghost eps: seq<Endpoints>,
                   ghost left: set<VirtualServer>, ghost backs: map<VirtualServer, set<Backend>>, ghost aim: Table,
                   ghost t0: Table)
    requires lvs.Valid() && net.Lawful() && left == aim.Keys - t0.Keys && lvs.table.Keys <= t0.Keys
    requires PortsReady(ports, vip, left, backs, m, eps) && SlotsHold(m, eps) && GoalOf(aim, backs, vip, net)
    modifies lvs
    ensures lvs.Valid() && lvs.faults >= old(lvs.faults)
    ensures old(lvs.log) <= lvs.log && Ipvs.RightFrom(lvs.log, |old(lvs.log)|, aim)
    ensures left == {} ==> lvs.log == old(lvs.log)
    ensures lvs.faults == old(lvs.faults) && (forall vs | vs in t0 :: Agree(old(lvs.table), aim, vs)) ==>
            lvs.table == aim
  {
    hide PortsReady;
    hide SlotsHold;
    hide GoalOf;
    hide Ipvs.Ran;
    hide Ipvs.Replay;
    hide Ipvs.RightFrom;
    ghost var t1, log1 := lvs.table, lvs.log;
    CreateMissing(lvs, TCP, vip, net, ports, m, eps, left, backs, aim);
    ghost var t2, log2 := lvs.table, lvs.log;
    assert forall vs | vs in left && vs.protocol == UDP :: vs !in lvs.table by {
      forall vs | vs in left && vs.protocol == UDP ensures vs !in lvs.table { assert Agree(t2, t1, vs); }
    }
    CreateMissing(lvs, UDP, vip, net, ports, m, eps, left, backs, aim);
    if lvs.faults == old(lvs.faults) && forall vs | vs in t0 :: Agree(t1, aim, vs) {
      Finished(t0, t1, t2, lvs.table, aim);
    }
    Ipvs.RightJoin(log2, lvs.log, |log1|, aim);
  }

  lemma NothingListed(goal: Table)
    ensures Ipvs.Aim(goal, []) == goal
  {
  }

  lemma AimCovered(goal: Table, listing: seq<Ipvs.Listed>, backs: map<VirtualServer, set<Backend>>, net: AddrText)
    ensures AllCovered(goal, backs, net) ==> AllCovered(Ipvs.Aim(goal, listing), backs, net)
  {
    hide Covered;
    hide Ipvs.Shadowed;
  }

  class LVSAdaptor {
    const lvs: Ipvs.Handler
    const ipset: Ipset.Handler
    const vip: IP
    const net: AddrText

    ghost predicate Valid()
      reads lvs, ipset
    {
      lvs.Valid() && ipset.Valid() && net.Lawful()
    }

    /** What these inputs call for on this balancer. */
    ghost function Asked(svcs: seq<Service>, eps: seq<Endpoints>): World { World(svcs, eps, vip, net) }

    constructor (lvs: Ipvs.Handler, ipset: Ipset.Handler, vip: IP, net: AddrText)
      requires lvs.Valid() && ipset.Valid() && net.Lawful()
      ensures Valid() && this.lvs == lvs && this.ipset == ipset && this.vip == vip && this.net == net
    {
      this.lvs, this.ipset, this.vip, this.net := lvs, ipset, vip, net;
    }

    /** `listing` is the order in which IPVS happened to list its servers. */
    method Build(svcs: seq<Service>, eps: seq<Endpoints>) returns (ghost listing: seq<Ipvs.Listed>)
      requires Valid()
      modifies lvs, ipset
      ensures Valid() && lvs.faults >= old(lvs.faults) && ipset.faults >= old(ipset.faults)
      ensures old(lvs.log) <= lvs.log && old(ipset.log) <= ipset.log
      // convergence, from any table, when no call fails; strangers may keep servers out of reach
      ensures lvs.faults == old(lvs.faults) ==>
        && Ipvs.Listing(listing, old(lvs.table), lvs.strangers)
        && lvs.table == Ipvs.Aim(Asked(svcs, eps).Desired(), listing)
      ensures Ipvs.NoClash(Asked(svcs, eps).Desired(), lvs.strangers) ==>
        Ipvs.Aim(Asked(svcs, eps).Desired(), listing) == Asked(svcs, eps).Desired()
      ensures ipset.faults == old(ipset.faults) ==>
              ipset.entries == Entries(net.show(vip), Asked(svcs, eps).VirtualServers())
      // the same, said by the fields of services and endpoints alone
      ensures lvs.faults == old(lvs.faults) && Ipvs.NoClash(Asked(svcs, eps).Desired(), lvs.strangers) ==>
        CalledFor(lvs.table, svcs, eps, vip, net)
      ensures ipset.faults == old(ipset.faults) ==>
        WrittenFor(ipset.entries, net.show(vip), svcs)
      // the two tables agree
      ensures lvs.faults == old(lvs.faults) && ipset.faults == old(ipset.faults) ==>
        forall q, p: Port :: Ipset.EntryText(net.show(vip), q, p) in ipset.entries <==>
          VirtualServer(vip, q, p) in lvs.table ||
          (VirtualServer(vip, q, p) in Asked(svcs, eps).Desired() && Ipvs.Shadowed(VirtualServer(vip, q, p), listing))
      // progress, whatever fails, exactly when every backend address is also there in its canonical spelling
      ensures Asked(svcs, eps).CoveredBackends() ==>
        Ipvs.RightFrom(lvs.log, |old(lvs.log)|, Ipvs.Aim(Asked(svcs, eps).Desired(), listing))
      ensures lvs.faults == old(lvs.faults) && Ipvs.NoClash(Asked(svcs, eps).Desired(), lvs.strangers) &&
              old(lvs.table) == Asked(svcs, eps).Desired() &&
              Ipvs.RightFrom(lvs.log, |old(lvs.log)|, Asked(svcs, eps).Desired()) ==>
        Asked(svcs, eps).CoveredBackends()
      ensures Ipset.RightFrom(ipset.log, |old(ipset.log)|, Entries(net.show(vip), Asked(svcs, eps).VirtualServers()))
      // quiescence: on settled tables no write is issued, exactly when addresses are canonical and there is no stranger
      ensures old(lvs.table) == Asked(svcs, eps).Desired() && Asked(svcs, eps).CanonicalBackends() &&
              lvs.strangers == [] ==>
        lvs.log == old(lvs.log)
      ensures lvs.faults == old(lvs.faults) && Ipvs.NoClash(Asked(svcs, eps).Desired(), lvs.strangers) &&
              old(lvs.table) == Asked(svcs, eps).Desired() && lvs.log == old(lvs.log) ==>
        Asked(svcs, eps).CanonicalBackends() && lvs.strangers == []
      ensures old(ipset.entries) == Entries(net.show(vip), Asked(svcs, eps).VirtualServers()) ==>
              ipset.log == old(ipset.log)
    {
      hide Ipvs.RightFrom;
      hide Ipset.RightFrom;
      hide Ipvs.Ran;
      hide Ipvs.Replay;
      hide Ipset.Replay;
      hide Ipvs.Listing;
      hide Ipvs.NoClash;
      hide Ipvs.Shadowed;
      hide Ipvs.Aim;
      hide PortsFor;
      hide PortsOf;
      hide HasSlots;
      hide SlotsHold;
      hide PortsReady;
      hide GoalOf;
      hide Canonical;
      hide AllCovered;
      hide Backs;
      hide Entries;
      hide Ipset.EntryText;
      hide Written;
      hide WrittenFor;
      hide CalledFor;
      ghost var w := Asked(svcs, eps);
      WorldWritten(svcs, eps, vip, net);
      TableWritten(svcs, eps, vip, net);
      var slots, ports := GroupServices(w, svcs);
      PortsForOf(w, ports);
      BuildIptables(ipset, net.show(vip), ports, vip, w.VirtualServers());
      var m := AttachEndpoints(slots, svcs, eps);
      Ready(w, m, ports);
      CanonicalBacks(w);
      listing := BuildIpvs(lvs, vip, net, ports, m, eps, Backs(w), w.Desired());
      Agreement(w, listing);
    }
  }

  /** The table is what services and endpoints call for, said by their fields alone. */
  ghost predicate CalledFor(t: Table, svcs: seq<Service>, eps: seq<Endpoints>, vip: IP, net: AddrText) {
    && (forall vs :: vs in t <==> vs.address == vip && Declared(svcs, vs.protocol, vs.port))
    && forall vs, rs | vs in t :: rs in t[vs] <==> Leads(svcs, eps, net, vs.protocol, vs.port, rs)
  }

  lemma TableWritten(svcs: seq<Service>, eps: seq<Endpoints>, vip: IP, net: AddrText)
    ensures CalledFor(World(svcs, eps, vip, net).Desired(), svcs, eps, vip, net)
  {
    hide Leads;
    hide RealServers;
    var goal := World(svcs, eps, vip, net).Desired();
    forall vs ensures vs in goal <==> vs.address == vip && Declared(svcs, vs.protocol, vs.port) {
      DesiredMember(svcs, eps, vip, net, vs);
    }
    forall vs, rs | vs in goal ensures rs in goal[vs] <==> Leads(svcs, eps, net, vs.protocol, vs.port, rs) {
      DesiredMember(svcs, eps, vip, net, vs);
    }
  }

  /** The entries are those of the servers reached, and of the wanted ones that a stranger keeps out of reach. */
  lemma Agreement(w: World, listing: seq<Ipvs.Listed>)
    ensures forall q, p: Port ::
              Ipset.EntryText(w.net.show(w.vip), q, p) in Entries(w.net.show(w.vip), w.VirtualServers()) <==>
                VirtualServer(w.vip, q, p) in Ipvs.Aim(w.Desired(), listing) ||
                (VirtualServer(w.vip, q, p) in w.Desired() && Ipvs.Shadowed(VirtualServer(w.vip, q, p), listing))
  {
    hide Ipvs.Shadowed;
    hide Ipvs.Aim;
    hide Ipset.EntryText;
    hide Entries;
    Ipvs.AimAt(w.Desired(), listing);
    forall q, p: Port
      ensures Ipset.EntryText(w.net.show(w.vip), q, p) in Entries(w.net.show(w.vip), w.VirtualServers())
              <==> VirtualServer(w.vip, q, p) in w.Desired()
    {
      EntryMeansServer(w, q, p);
    }
  }

  /**
   `rounds` builds on fixed inputs, as the sync loop issues them, with any calls failing. The table and the
   set never move away from the goal, and no more writes take effect than there were discrepancies.
   With fewer faults than rounds some build was free of them, and that settles the table for good.
   */
  method Rounds(a: LVSAdaptor, rounds: nat, svcs: seq<Service>, eps: seq<Endpoints>)
    requires a.Valid() && a.Asked(svcs, eps).CoveredBackends()
    requires Ipvs.NoClash(a.Asked(svcs, eps).Desired(), a.lvs.strangers)
    modifies a.lvs, a.ipset
    ensures a.Valid() && old(a.lvs.log) <= a.lvs.log && a.lvs.faults >= old(a.lvs.faults)
    ensures a.ipset.faults >= old(a.ipset.faults)
    ensures Ipvs.Diff(a.lvs.table, a.Asked(svcs, eps).Desired())
            <= Ipvs.Diff(old(a.lvs.table), a.Asked(svcs, eps).Desired())
    ensures Ipvs.Effective(a.lvs.log, |old(a.lvs.log)|) + |Ipvs.Diff(a.lvs.table, a.Asked(svcs, eps).Desired())|
            <= |Ipvs.Diff(old(a.lvs.table), a.Asked(svcs, eps).Desired())|
    ensures a.lvs.faults - old(a.lvs.faults) < rounds ==> a.lvs.table == a.Asked(svcs, eps).Desired()
    ensures var entries := Entries(a.net.show(a.vip), a.Asked(svcs, eps).VirtualServers());
            && Ipset.Diff(a.ipset.entries, entries) <= Ipset.Diff(old(a.ipset.entries), entries)
            && (a.ipset.faults - old(a.ipset.faults) < rounds ==> a.ipset.entries == entries)
  {
    ghost var goal := a.Asked(svcs, eps).Desired();
    ghost var entries := Entries(a.net.show(a.vip), a.Asked(svcs, eps).VirtualServers());
    ghost var settled, filled := false, false;
    Ipvs.RightNone(a.lvs.log, goal);
    assert a.lvs.Valid();
    ghost var start, log0 := a.lvs.start, a.lvs.log;
    assert Ipvs.Ran(start, log0) && Ipvs.Replay(start, log0) == a.lvs.table;
    hide *;
    for i := 0 to rounds
      invariant a.Valid() && old(a.lvs.log) <= a.lvs.log && a.lvs.faults >= old(a.lvs.faults)
      invariant a.ipset.faults >= old(a.ipset.faults)
      invariant Ipvs.RightFrom(a.lvs.log, |old(a.lvs.log)|, goal)
      invariant settled ==> a.lvs.table == goal
      invariant !settled ==> a.lvs.faults - old(a.lvs.faults) >= i
      invariant Ipset.Diff(a.ipset.entries, entries) <= Ipset.Diff(old(a.ipset.entries), entries)
      invariant filled ==> a.ipset.entries == entries
      invariant !filled ==> a.ipset.faults - old(a.ipset.faults) >= i
    {
      ghost var log, faults, setFaults := a.lvs.log, a.lvs.faults, a.ipset.faults;
      Round(a, svcs, eps, goal, entries);
      Ipvs.RightJoin(log, a.lvs.log, |old(a.lvs.log)|, goal);
      settled := settled || a.lvs.faults == faults;
      filled := filled || a.ipset.faults == setFaults;
    }
    Replayed(a);
    Closer(start, log0, a.lvs.log, goal);
  }

  lemma Replayed(a: LVSAdaptor)
    requires a.Valid()
    ensures Ipvs.Ran(a.lvs.start, a.lvs.log) && Ipvs.Replay(a.lvs.start, a.lvs.log) == a.lvs.table
    ensures Ipset.Replay(a.ipset.start, a.ipset.log) == a.ipset.entries
  {
  }

  /** One build of those: no step back, and the goal once no call fails. */
  method Round(a: LVSAdaptor, svcs: seq<Service>, eps: seq<Endpoints>, ghost goal: Table, ghost entries: set<string>)
    requires a.Valid() && goal == a.Asked(svcs, eps).Desired()
    requires entries == Entries(a.net.show(a.vip), a.Asked(svcs, eps).VirtualServers())
    requires a.Asked(svcs, eps).CoveredBackends() && Ipvs.NoClash(goal, a.lvs.strangers)
    modifies a.lvs, a.ipset
    ensures a.Valid() && old(a.lvs.log) <= a.lvs.log && a.lvs.faults >= old(a.lvs.faults)
    ensures a.ipset.faults >= old(a.ipset.faults)
    ensures Ipvs.RightFrom(a.lvs.log, |old(a.lvs.log)|, goal)
    ensures a.lvs.faults == old(a.lvs.faults) || old(a.lvs.table) == goal ==> a.lvs.table == goal
    ensures Ipset.Diff(a.ipset.entries, entries) <= Ipset.Diff(old(a.ipset.entries), entries)
    ensures a.ipset.faults == old(a.ipset.faults) || old(a.ipset.entries) == entries ==> a.ipset.entries == entries
  {
    hide *;
    Replayed(a);
    ghost var log, setLog := a.lvs.log, a.ipset.log;
    ghost var listing := a.Build(svcs, eps);
    Replayed(a);
    Closer(a.lvs.start, log, a.lvs.log, goal);
    SetCloser(a.ipset.start, setLog, a.ipset.log, entries);
  }

  lemma SetCloser(start: set<string>, log: seq<Ipset.Call>, log': seq<Ipset.Call>, goal: set<string>)
    requires log <= log'
    ensures Ipset.RightFrom(log', |log|, goal) ==>
              && Ipset.Diff(Ipset.Replay(start, log'), goal) <= Ipset.Diff(Ipset.Replay(start, log), goal)
              && (Ipset.Replay(start, log) == goal ==> Ipset.Replay(start, log') == goal)
  {
    hide Ipset.Replay;
    if Ipset.RightFrom(log', |log|, goal) {
      Ipset.Progress(start, log', |log|, goal);
      assert log'[..|log|] == log;
      Ipset.DiffEmpty(Ipset.Replay(start, log), goal);
      Ipset.DiffEmpty(Ipset.Replay(start, log'), goal);
    }
  }

  /** Calls that all go the right way: no step back, and none at all from the goal. */
  lemma Closer(start: Table, log: seq<Ipvs.Call>, log': seq<Ipvs.Call>, goal: Table)
    requires Ipvs.Ran(start, log) && Ipvs.Ran(start, log') && log <= log' && Ipvs.RightFrom(log', |log|, goal)
    ensures Ipvs.Diff(Ipvs.Replay(start, log'), goal) <= Ipvs.Diff(Ipvs.Replay(start, log), goal)
    ensures Ipvs.Effective(log', |log|) + |Ipvs.Diff(Ipvs.Replay(start, log'), goal)|
            <= |Ipvs.Diff(Ipvs.Replay(start, log), goal)|
    ensures Ipvs.Replay(start, log) == goal ==> Ipvs.Replay(start, log') == goal
  {
    hide Ipvs.Ran;
    hide Ipvs.Replay;
    hide Ipvs.Diff;
    hide Ipvs.RightFrom;
    hide Ipvs.Effective;
    Ipvs.Progress(start, log', |log|, goal);
    assert log'[..|log|] == log;
    Ipvs.DiffEmpty(Ipvs.Replay(start, log), goal);
    Ipvs.DiffEmpty(Ipvs.Replay(start, log'), goal);
  }

  lemma EntryMeansServer(w: World, q: Protocol, p: Port)
    ensures Ipset.EntryText(w.net.show(w.vip), q, p) in Entries(w.net.show(w.vip), w.VirtualServers())
            <==> VirtualServer(w.vip, q, p) in w.Desired()
  {
    var text := w.net.show(w.vip);
    if Ipset.EntryText(text, q, p) in Entries(text, w.VirtualServers()) {
      var vs :| vs in w.VirtualServers() && Ipset.EntryText(text, vs.protocol, vs.port) == Ipset.EntryText(text, q, p);
      Ipset.EntryTextInjective(text, vs.protocol, vs.port, text, q, p);
    }
  }
}

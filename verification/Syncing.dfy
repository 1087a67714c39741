/**
 The loop of `syncing` (`server/bmlb/bmlb.go`) with the builds it makes: once the stores stop changing, it
 brings IPVS and the set to what the stores call for.
 */
module Syncing {
  import opened Cluster
  import opened SyncLoop
  import Ipvs
  import Ipset
  import Adaptor

  /** How many steps the loop takes, from here, until it has built from lists taken after this moment. */
  function BuildDistance(pc: Pc): nat { Need(pc, false) }

  /** The same, when the services it holds may already be the latest. */
  function Need(pc: Pc, latest: bool): nat {
    match pc
    case Polling => 6
    case Made => 5
    case Waiting => 4
    case Received => 3
    case ListedServices => if latest then 2 else 6
    case Building => if latest then 1 else 5
  }

  ghost predicate Settled(a: Adaptor.LVSAdaptor, services: seq<Service>, endpoints: seq<Endpoints>)
    reads a.lvs
  {
    Ipvs.NoClash(a.Asked(services, endpoints).Desired(), a.lvs.strangers) ==>
      a.lvs.table == a.Asked(services, endpoints).Desired()
  }

  ghost predicate Filled(a: Adaptor.LVSAdaptor, services: seq<Service>, endpoints: seq<Endpoints>)
    reads a.ipset
  {
    a.ipset.entries == Adaptor.Entries(a.net.show(a.vip), a.Asked(services, endpoints).VirtualServers())
  }

  /**
   The loop from any reachable state `s`, through events `es` after the last change: the stores hold `services`
   and `endpoints` all along, while the lists the loop holds at first may be older. After `BuildDistance` of its
   own steps, interleaved with any notifications, and if no call has failed since, both tables are what the
   stores call for, and they stay so.
   */
  method Syncing(a: Adaptor.LVSAdaptor, s: State, es: seq<Event>, services: seq<Service>, endpoints: seq<Endpoints>,
                 oldServices: seq<Service>, oldEndpoints: seq<Endpoints>)
    returns (s': State)
    requires a.Valid() && CanRun(s, es) && forall e | e in es :: !e.Change?
    modifies a.lvs, a.ipset
    ensures a.Valid() && s' == After(s, es)
    ensures a.lvs.faults >= old(a.lvs.faults) && a.ipset.faults >= old(a.ipset.faults)
    ensures LoopSteps(es) >= BuildDistance(s.pc) && a.lvs.faults == old(a.lvs.faults) ==>
            Settled(a, services, endpoints)
    ensures LoopSteps(es) >= BuildDistance(s.pc) && a.ipset.faults == old(a.ipset.faults) ==>
            Filled(a, services, endpoints)
  {
    hide Settled;
    hide Filled;
    s' := s;
    var svcs, eps := oldServices, oldEndpoints;
    ghost var latest, built := false, false;
    assert es[0..] == es;
    for i := 0 to |es|
      invariant a.Valid() && CanRun(s', es[i..]) && After(s', es[i..]) == After(s, es)
      invariant a.lvs.faults >= old(a.lvs.faults) && a.ipset.faults >= old(a.ipset.faults)
      invariant latest ==> svcs == services && (s'.pc != ListedServices ==> eps == endpoints)
      invariant s'.pc in {Polling, Made} ==> !latest
      invariant built ==> latest && eps == endpoints
      invariant LoopSteps(es) >= BuildDistance(s.pc) ==> built || LoopSteps(es[i..]) >= Need(s'.pc, latest)
      invariant built && a.lvs.faults == old(a.lvs.faults) ==> Settled(a, services, endpoints)
      invariant built && a.ipset.faults == old(a.ipset.faults) ==> Filled(a, services, endpoints)
    {
      var e := es[i];
      assert es[i..][0] == e && es[i..][1..] == es[i + 1..];
      match e {
        case ListServices =>
          svcs := services;
        case ListEndpoints =>
          eps := endpoints;
        case BuildDone =>
          BuildOnce(a, svcs, eps);
          built := latest;
        case _ =>
      }
      s' := Next(s', e);
      latest := latest || e.ListServices?;
    }
  }

  /** One build, and what it leaves if no call fails. */
  method BuildOnce(a: Adaptor.LVSAdaptor, svcs: seq<Service>, eps: seq<Endpoints>)
    requires a.Valid()
    modifies a.lvs, a.ipset
    ensures a.Valid() && a.lvs.faults >= old(a.lvs.faults) && a.ipset.faults >= old(a.ipset.faults)
    ensures a.lvs.faults == old(a.lvs.faults) ==> Settled(a, svcs, eps)
    ensures a.ipset.faults == old(a.ipset.faults) ==> Filled(a, svcs, eps)
  {
    hide Ipvs.NoClash;
    hide Ipvs.Aim;
    hide Ipvs.RightFrom;
    hide Ipset.RightFrom;
    ghost var listing := a.Build(svcs, eps);
  }
}

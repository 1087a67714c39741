/**
 The IPVS handler of `lvs/lvs.go`: a table of virtual servers, each with its real servers,
 changed by calls any of which may fail without effect.
 */
module Ipvs {
  import opened Strings
  import opened Cluster

  // ------------------------------------------------- distance between tables

  datatype Fact = Serves(vs: VirtualServer) | Forwards(vs: VirtualServer, rs: RealServer)

  function Facts(t: Table): set<Fact> {
    (set vs | vs in t :: Serves(vs)) + (set vs, rs | vs in t && rs in t[vs] :: Forwards(vs, rs))
  }

  /** What must change for `t` to become `goal`. */
  function Diff(t: Table, goal: Table): set<Fact> {
    (Facts(t) - Facts(goal)) + (Facts(goal) - Facts(t))
  }

  lemma DiffEmpty(t: Table, goal: Table)
    ensures Diff(t, goal) == {} <==> t == goal
  {
    if Diff(t, goal) == {} {
      assert Facts(t) == Facts(goal);
      forall vs ensures vs in t <==> vs in goal {
        assert Serves(vs) in Facts(t) <==> vs in t;
        assert Serves(vs) in Facts(goal) <==> vs in goal;
      }
      forall vs | vs in t ensures t[vs] == goal[vs] {
        forall rs ensures rs in t[vs] <==> rs in goal[vs] {
          assert Forwards(vs, rs) in Facts(t) <==> rs in t[vs];
          assert Forwards(vs, rs) in Facts(goal) <==> rs in goal[vs];
        }
      }
    }
  }

  // ------------------------------------------------- what a listing shows

  /**
   A server of a protocol other than TCP and UDP, or one selected by a firewall mark. It is reported without a
   protocol name, and a call that names it asks for protocol number 0 (lines 308-327), which no server has:
   no write reaches it. Several may be reported alike.
   */
  datatype Stranger = Stranger(address: IP, port: Port)

  datatype Listed = Known(vs: VirtualServer) | Strange(stranger: Stranger)

  /** No two places show the same known server. */
  ghost predicate KnownOnce(listing: seq<Listed>) {
    forall i, j | 0 <= i < j < |listing| && listing[i].Known? :: listing[i] != listing[j]
  }

  ghost predicate Listing(listing: seq<Listed>, t: Table, strangers: seq<Stranger>) {
    && (forall vs :: Known(vs) in listing <==> vs in t)
    && (forall s :: Strange(s) in listing <==> s in strangers)
    && KnownOnce(listing)
    && (forall s :: multiset(listing)[Strange(s)] == multiset(strangers)[s])
  }

  function AllStrange(strangers: seq<Stranger>): (listing: seq<Listed>)
    ensures |listing| == |strangers| && forall i | 0 <= i < |listing| :: listing[i] == Strange(strangers[i])
  {
    if strangers == [] then [] else [Strange(strangers[0])] + AllStrange(strangers[1..])
  }

  lemma {:induction false} StrangeCounts(strangers: seq<Stranger>)
    ensures forall s :: multiset(AllStrange(strangers))[Strange(s)] == multiset(strangers)[s]
    ensures forall vs :: multiset(AllStrange(strangers))[Known(vs)] == 0
    decreases |strangers|
  {
    if strangers != [] {
      StrangeCounts(strangers[1..]);
      MultisetRest(strangers);
      MultisetRest(AllStrange(strangers));
      assert AllStrange(strangers)[1..] == AllStrange(strangers[1..]);
    }
  }

  /** How often a listing shows each server determines that it is one. */
  lemma CountedListing(listing: seq<Listed>, t: Table, strangers: seq<Stranger>)
    requires forall vs :: multiset(listing)[Known(vs)] == if vs in t then 1 else 0
    requires forall s :: multiset(listing)[Strange(s)] == multiset(strangers)[s]
    ensures Listing(listing, t, strangers)
  {
    forall vs ensures Known(vs) in listing <==> vs in t {
      assert Known(vs) in listing <==> Known(vs) in multiset(listing);
    }
    forall s ensures Strange(s) in listing <==> s in strangers {
      assert Strange(s) in listing <==> Strange(s) in multiset(listing);
      assert s in strangers <==> s in multiset(strangers);
    }
    forall i, j | 0 <= i < j < |listing| && listing[i].Known? ensures listing[i] != listing[j] {
      if listing[i] == listing[j] { CountedTwice(listing, i, j); }
    }
  }

  lemma Reordered(a: seq<Listed>, b: seq<Listed>, t: Table, strangers: seq<Stranger>)
    requires Listing(a, t, strangers) && multiset(a) == multiset(b)
    ensures Listing(b, t, strangers)
  {
    ListingCounts(a, t, strangers);
    CountedListing(b, t, strangers);
  }

  /** And the other way round: all listings show each server equally often. */
  lemma ListingCounts(listing: seq<Listed>, t: Table, strangers: seq<Stranger>)
    requires Listing(listing, t, strangers)
    ensures forall vs :: multiset(listing)[Known(vs)] == if vs in t then 1 else 0
  {
    forall vs ensures multiset(listing)[Known(vs)] == if vs in t then 1 else 0 {
      assert Known(vs) in listing <==> Known(vs) in multiset(listing);
      if vs in t {
        var k :| 0 <= k < |listing| && listing[k] == Known(vs);
        CountedOnce(listing, k);
      }
    }
  }

  lemma SameListings(a: seq<Listed>, b: seq<Listed>, t: Table, strangers: seq<Stranger>)
    requires Listing(a, t, strangers) && Listing(b, t, strangers)
    ensures multiset(a) == multiset(b)
  {
    ListingCounts(a, t, strangers);
    ListingCounts(b, t, strangers);
    forall x: Listed ensures multiset(a)[x] == multiset(b)[x] {
      match x
      case Known(vs) =>
      case Strange(s) =>
    }
  }

  lemma AllKnown(listing: seq<Listed>, t: Table)
    requires Listing(listing, t, [])
    ensures forall k | 0 <= k < |listing| :: listing[k].Known?
  {
    assert forall x: Listed :: x.Known? || (exists s :: x == Strange(s)) by {
      forall x: Listed ensures x.Known? || exists s :: x == Strange(s) {
        assert x.Strange? ==> x == Strange(x.stranger);
      }
    }
    assert forall k | 0 <= k < |listing| :: listing[k] in listing;
  }

  /** The TCP server a stranger is taken for, and the stranger that would be taken for `vs`. */
  function Twin(s: Stranger): VirtualServer { VirtualServer(s.address, TCP, s.port) }

  function Shadow(vs: VirtualServer): Stranger { Stranger(vs.address, vs.port) }

  /** The server whose port a listed one uses up. */
  function Drains(item: Listed): VirtualServer { if item.Known? then item.vs else Twin(item.stranger) }

  /** A stranger taken for `vs` comes before `vs` itself. */
  predicate ShadowedAt(vs: VirtualServer, listing: seq<Listed>, j: nat) {
    vs.protocol == TCP && j < |listing| && listing[j] == Strange(Shadow(vs)) && Known(vs) !in listing[..j]
  }

  predicate Shadowed(vs: VirtualServer, listing: seq<Listed>) {
    exists j | 0 <= j < |listing| :: ShadowedAt(vs, listing, j)
  }

  /** What a build that works from `listing` can reach of `goal`. */
  function Aim(goal: Table, listing: seq<Listed>): Table { map vs | vs in goal && !Shadowed(vs, listing) :: goal[vs] }

  lemma AimAt(goal: Table, listing: seq<Listed>)
    ensures forall vs :: vs in Aim(goal, listing) <==> vs in goal && !Shadowed(vs, listing)
  {
    hide Shadowed;
  }

  /** No stranger can be taken for a wanted server. */
  ghost predicate NoClash(goal: Table, strangers: seq<Stranger>) {
    forall s | s in strangers :: Twin(s) !in goal
  }

  lemma NoClashAim(goal: Table, t: Table, strangers: seq<Stranger>, listing: seq<Listed>)
    requires Listing(listing, t, strangers) && NoClash(goal, strangers)
    ensures forall vs | vs in goal :: !Shadowed(vs, listing)
    ensures Aim(goal, listing) == goal
  {
    forall vs | vs in goal ensures !Shadowed(vs, listing) {
      assert vs.protocol == TCP ==> Twin(Shadow(vs)) == vs && Strange(Shadow(vs)) !in listing;
      assert forall j | 0 <= j < |listing| :: listing[j] in listing;
    }
  }

  /** Strangers that all resemble wanted servers and do not clash are none at all. */
  lemma NoneDrained(goal: Table, strangers: seq<Stranger>)
    ensures NoClash(goal, strangers) && (forall s | s in strangers :: Twin(s) in goal.Keys) ==> strangers == []
    ensures strangers == [] ==> NoClash(goal, strangers)
  {
    assert strangers != [] ==> strangers[0] in strangers;
  }

  ghost function SomeOrder<T(!new)>(keys: set<T>): (s: seq<T>)
    ensures Lists(s, keys)
    decreases keys
  {
    if keys == {} then []
    else
      var x :| x in keys;
      SomeOrder(keys - {x}) + [x]
  }

  /** The goal is within reach whatever the listing order exactly when no stranger clashes with it. */
  lemma ClashExactly(goal: Table, t: Table, strangers: seq<Stranger>)
    ensures (forall listing | Listing(listing, t, strangers) :: Aim(goal, listing) == goal)
            <==> NoClash(goal, strangers)
    ensures NoClash(goal, strangers) <==> forall s | s in strangers :: VirtualServer(s.address, TCP, s.port) !in goal
  {
    if NoClash(goal, strangers) {
      forall listing | Listing(listing, t, strangers) ensures Aim(goal, listing) == goal {
        NoClashAim(goal, t, strangers, listing);
      }
    } else {
      var s :| s in strangers && Twin(s) in goal;
      var listing := StrangerFirst(t, strangers, s);
      assert ShadowedAt(Twin(s), listing, 0);
      assert Twin(s) !in Aim(goal, listing);
    }
  }

  lemma SetCounts(t: Table, rest: seq<Listed>)
    requires Lists(rest, set vs | vs in t :: Known(vs))
    ensures forall vs :: multiset(rest)[Known(vs)] == if vs in t then 1 else 0
    ensures forall s :: multiset(rest)[Strange(s)] == 0
  {
    ListsMultiset(rest, set vs | vs in t :: Known(vs));
  }

  /** Strangers first, in the order given, then the known servers. */
  lemma StrangersThen(t: Table, strangers: seq<Stranger>, first: seq<Stranger>, rest: seq<Listed>)
    requires multiset(first) == multiset(strangers) && Lists(rest, set vs | vs in t :: Known(vs))
    ensures Listing(AllStrange(first) + rest, t, strangers)
  {
    StrangeCounts(first);
    SetCounts(t, rest);
    hide AllStrange;
    hide Lists;
    var listing := AllStrange(first) + rest;
    assert multiset(listing) == multiset(AllStrange(first)) + multiset(rest);
    CountedListing(listing, t, strangers);
  }

  lemma StrangerFirst(t: Table, strangers: seq<Stranger>, s: Stranger) returns (listing: seq<Listed>)
    requires s in strangers
    ensures Listing(listing, t, strangers) && listing[0] == Strange(s)
  {
    var k :| 0 <= k < |strangers| && strangers[k] == s;
    var first := [s] + (strangers[..k] + strangers[k + 1..]);
    assert strangers == strangers[..k] + [s] + strangers[k + 1..];
    assert multiset(first) == multiset(strangers);
    var rest := SomeOrder(set vs | vs in t :: Known(vs));
    hide Listing;
    StrangersThen(t, strangers, first, rest);
    listing := AllStrange(first) + rest;
  }

  /** A wanted server that is missing is out of reach of every build while its stranger is there. */
  lemma ClashMissing(goal: Table, t: Table, strangers: seq<Stranger>, s: Stranger, listing: seq<Listed>)
    requires Listing(listing, t, strangers) && s in strangers && VirtualServer(s.address, TCP, s.port) !in t
    ensures VirtualServer(s.address, TCP, s.port) !in Aim(goal, listing)
  {
    assert Strange(s) in listing && Known(Twin(s)) !in listing;
    var j :| 0 <= j < |listing| && listing[j] == Strange(s);
    assert ShadowedAt(Twin(s), listing, j);
  }

  // ------------------------------------------------- calls

  datatype Move =
    | AddServer(vs: VirtualServer)
    | DeleteServer(vs: VirtualServer)
    | AddReal(vs: VirtualServer, rs: RealServer)
    | DeleteReal(vs: VirtualServer, rs: RealServer)
    | DeleteStranger(stranger: Stranger)
    | AddToStranger(stranger: Stranger, rs: RealServer)

  /** A write call that was issued, and whether it took effect. */
  datatype Call = Call(move: Move, ok: bool)

  /** The kernel refuses to add what is there and to delete what is not. */
  predicate Possible(t: Table, m: Move) {
    match m
    case AddServer(vs) => vs !in t
    case DeleteServer(vs) => vs in t
    case AddReal(vs, rs) => vs in t && rs !in t[vs]
    case DeleteReal(vs, rs) => vs in t && rs in t[vs]
    case DeleteStranger(_) => false
    case AddToStranger(_, _) => false
  }

  function Apply(t: Table, m: Move): Table
    requires Possible(t, m)
  {
    match m
    case AddServer(vs) => t[vs := {}]
    case DeleteServer(vs) => t - {vs}
    case AddReal(vs, rs) => t[vs := t[vs] + {rs}]
    case DeleteReal(vs, rs) => t[vs := t[vs] - {rs}]
  }

  /** The call asks for something `goal` has, removes something it has not, or cannot take effect. */
  predicate Right(m: Move, goal: Table) {
    match m
    case AddServer(vs) => vs in goal
    case DeleteServer(vs) => vs !in goal
    case AddReal(vs, rs) => vs in goal && rs in goal[vs]
    case DeleteReal(vs, rs) => vs in goal && rs !in goal[vs]
    case DeleteStranger(_) => true
    case AddToStranger(_, _) => true
  }

  ghost predicate RightFrom(log: seq<Call>, from: nat, goal: Table) {
    from <= |log| && forall i | from <= i < |log| :: Right(log[i].move, goal)
  }

  lemma RightNone(log: seq<Call>, goal: Table)
    ensures RightFrom(log, |log|, goal)
  {
  }

  lemma RightJoin(mid: seq<Call>, log: seq<Call>, from: nat, goal: Table)
    requires mid <= log && RightFrom(mid, from, goal) && RightFrom(log, |mid|, goal)
    ensures RightFrom(log, from, goal)
  {
    forall i | from <= i < |log| ensures Right(log[i].move, goal) {
      if i < |mid| { assert log[i] == mid[i]; }
    }
  }

  lemma RightSplit(mid: seq<Call>, log: seq<Call>, from: nat, goal: Table)
    requires from <= |mid| && mid <= log && RightFrom(log, from, goal)
    ensures RightFrom(mid, from, goal) && RightFrom(log, |mid|, goal)
  {
    assert forall i | from <= i < |mid| :: mid[i] == log[i];
  }

  /** `log` can happen from `start`: calls take effect only where the kernel allows it. */
  ghost predicate Ran(start: Table, log: seq<Call>)
    decreases |log|, 0
  {
    log == [] ||
    (var before, last := log[..|log| - 1], log[|log| - 1];
     Ran(start, before) && (last.ok ==> Possible(Replay(start, before), last.move)))
  }

  /** The table after the calls of `log`. */
  ghost function Replay(start: Table, log: seq<Call>): Table
    requires Ran(start, log)
    decreases |log|, 1
  {
    if log == [] then start
    else
      var before, last := log[..|log| - 1], log[|log| - 1];
      if last.ok then Apply(Replay(start, before), last.move) else Replay(start, before)
  }

  lemma RanAppend(start: Table, log: seq<Call>, c: Call)
    requires Ran(start, log) && (c.ok ==> Possible(Replay(start, log), c.move))
    ensures Ran(start, log + [c])
    ensures Replay(start, log + [c]) ==
            if c.ok then Apply(Replay(start, log), c.move) else Replay(start, log)
  {
    assert (log + [c])[..|log|] == log;
  }

  lemma {:induction false} RanPrefix(start: Table, log: seq<Call>, n: nat)
    requires Ran(start, log) && n <= |log|
    ensures Ran(start, log[..n])
    decreases |log|
  {
    if n < |log| {
      RanPrefix(start, log[..|log| - 1], n);
      assert log[..|log| - 1][..n] == log[..n];
    } else {
      assert log[..n] == log;
    }
  }

  function Effective(log: seq<Call>, from: nat): nat
    requires from <= |log|
    decreases |log|
  {
    if from == |log| then 0
    else Effective(log[..|log| - 1], from) + (if log[|log| - 1].ok then 1 else 0)
  }

  /**
   Whatever fails, when every call from position `from` on goes the right way, each one that
   takes effect strictly shrinks the distance to `goal`. So the distance never grows, and no
   more calls take effect than there were discrepancies to begin with.
   */
  lemma {:induction false} Progress(start: Table, log: seq<Call>, from: nat, goal: Table)
    requires Ran(start, log) && RightFrom(log, from, goal)
    ensures Ran(start, log[..from])
    ensures Diff(Replay(start, log), goal) <= Diff(Replay(start, log[..from]), goal)
    ensures Effective(log, from) + |Diff(Replay(start, log), goal)| <= |Diff(Replay(start, log[..from]), goal)|
    ensures from < |log| && log[|log| - 1].ok ==>
              && Ran(start, log[..|log| - 1])
              && Diff(Replay(start, log), goal) < Diff(Replay(start, log[..|log| - 1]), goal)
    decreases |log|
  {
    if from == |log| {
      assert log[..from] == log;
    } else {
      var before := log[..|log| - 1];
      assert before[..from] == log[..from];
      Progress(start, before, from, goal);
      if log[|log| - 1].ok {
        RightMoveShrinks(Replay(start, before), log[|log| - 1].move, goal);
        SubsetCardinality(Diff(Replay(start, log), goal), Diff(Replay(start, before), goal));
      }
    }
  }

  lemma RightMoveShrinks(t: Table, m: Move, goal: Table)
    requires Possible(t, m) && Right(m, goal)
    ensures Diff(Apply(t, m), goal) < Diff(t, goal)
  {
    match m
    case AddServer(vs) => AddServerShrinks(t, vs, goal);
    case DeleteServer(vs) => DeleteServerShrinks(t, vs, goal);
    case AddReal(vs, rs) => AddRealShrinks(t, vs, rs, goal);
    case DeleteReal(vs, rs) => DeleteRealShrinks(t, vs, rs, goal);
  }

  lemma SubsetCardinality<T>(a: set<T>, b: set<T>)
    requires a < b
    ensures |a| < |b|
  {
    assert b == a + (b - a);
    var x :| x in b - a;
    assert |b| == |a| + |b - a|;
  }

  lemma DeleteServerShrinks(t: Table, vs: VirtualServer, goal: Table)
    requires vs in t && vs !in goal
    ensures Diff(t - {vs}, goal) < Diff(t, goal)
  {
    assert Facts(t - {vs}) <= Facts(t);
    assert Facts(t) - Facts(t - {vs}) !! Facts(goal);
    assert Serves(vs) in Diff(t, goal) - Diff(t - {vs}, goal);
  }

  lemma AddServerShrinks(t: Table, vs: VirtualServer, goal: Table)
    requires vs !in t && vs in goal
    ensures Diff(t[vs := {}], goal) < Diff(t, goal)
  {
    assert Facts(t[vs := {}]) == Facts(t) + {Serves(vs)};
    assert Serves(vs) in Diff(t, goal) - Diff(t[vs := {}], goal);
  }

  lemma DeleteRealShrinks(t: Table, vs: VirtualServer, rs: RealServer, goal: Table)
    requires vs in t && rs in t[vs] && vs in goal && rs !in goal[vs]
    ensures Diff(t[vs := t[vs] - {rs}], goal) < Diff(t, goal)
  {
    assert Facts(t[vs := t[vs] - {rs}]) == Facts(t) - {Forwards(vs, rs)};
    assert Forwards(vs, rs) in Diff(t, goal) - Diff(t[vs := t[vs] - {rs}], goal);
  }

  lemma AddRealShrinks(t: Table, vs: VirtualServer, rs: RealServer, goal: Table)
    requires vs in t && rs !in t[vs] && vs in goal && rs in goal[vs]
    ensures Diff(t[vs := t[vs] + {rs}], goal) < Diff(t, goal)
  {
    assert Facts(t[vs := t[vs] + {rs}]) == Facts(t) + {Forwards(vs, rs)};
    assert Forwards(vs, rs) in Diff(t, goal) - Diff(t[vs := t[vs] + {rs}], goal);
  }

  // ------------------------------------------------- the handler

  class Handler {
    var table: Table
    const strangers: seq<Stranger>
    ghost const start: Table
    /** The write calls issued so far. */
    ghost var log: seq<Call>
    /** How many calls have failed for a reason outside the table. */
    ghost var faults: nat
    /** How many lists of real servers were refused for want of the virtual server. */
    ghost var refused: nat

    ghost predicate Valid()
      reads this
    {
      Ran(start, log) && Replay(start, log) == table
    }

    constructor (initial: Table, strangers: seq<Stranger>)
      ensures Valid() && table == initial && this.strangers == strangers
    {
      table, start, log, faults, refused := initial, initial, [], 0, 0;
      this.strangers := strangers;
    }

    method GetVirtualServers() returns (listing: seq<Listed>, ok: bool)
      requires Valid()
      modifies this`faults
      ensures Valid() && faults >= old(faults)
      ensures ok ==> Listing(listing, table, strangers)
      ensures !ok ==> faults > old(faults)
    {
      hide Ran;
      hide Replay;
      hide Listing;
      var known := Enumerate(set vs | vs in table :: Known(vs));
      StrangersThen(table, strangers, strangers, known);
      listing := Shuffle(AllStrange(strangers) + known);
      Reordered(AllStrange(strangers) + known, listing, table, strangers);
      ok := *;
      if !ok { faults := faults + 1; }
    }

    /** For a server the kernel does not find it may answer with an error or with an empty list. */
    method GetRealServers(item: Listed) returns (rss: seq<RealServer>, ok: bool)
      requires Valid()
      modifies this`faults, this`refused
      ensures Valid() && faults >= old(faults) && refused >= old(refused)
      ensures ok ==> if item.Known? && item.vs in table then Lists(rss, table[item.vs]) else rss == []
      ensures !ok ==> if item.Known? && item.vs in table then faults > old(faults) else refused > old(refused)
      ensures item.Strange? ==> faults == old(faults)
      ensures item.Known? && item.vs in table ==> refused == old(refused)
    {
      rss := [];
      ok := *;
      if item.Known? && item.vs in table {
        if ok { rss := Enumerate(table[item.vs]); } else { faults := faults + 1; }
      } else if !ok {
        refused := refused + 1;
      }
    }

    /**
     `AddVirtualServer`, `DeleteVirtualServer`, `AddRealServer` and `DeleteRealServer`: refused
     by the kernel when not possible, and otherwise carried out unless something else fails.
     */
    method Write(m: Move) returns (ok: bool)
      requires Valid()
      modifies this
      ensures Valid() && faults >= old(faults)
      ensures log == old(log) + [Call(m, ok)]
      ensures ok ==> Possible(old(table), m) && table == Apply(old(table), m)
      ensures ok ==>
        match m
        case AddServer(vs) => vs !in old(table) && table == old(table)[vs := {}]
        case DeleteServer(vs) => vs in old(table) && table == old(table) - {vs}
        case AddReal(vs, rs) =>
          vs in old(table) && rs !in old(table)[vs] && table == old(table)[vs := old(table)[vs] + {rs}]
        case DeleteReal(vs, rs) =>
          vs in old(table) && rs in old(table)[vs] && table == old(table)[vs := old(table)[vs] - {rs}]
        case _ => false
      ensures !ok ==> table == old(table)
      ensures !ok && Possible(old(table), m) ==> faults > old(faults)
      ensures !Possible(old(table), m) ==> faults == old(faults)
      ensures refused == old(refused)
    {
      hide Ran;
      hide Replay;
      ok := *;
      if !Possible(table, m) {
        ok := false;
      } else if ok {
        table := Apply(table, m);
      } else {
        faults := faults + 1;
      }
      RanAppend(start, log, Call(m, ok));
      log := log + [Call(m, ok)];
    }
  }
}

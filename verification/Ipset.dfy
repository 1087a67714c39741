/** The ipset handler of `utils/ipset/ipset.go`, for the one set the load balancer keeps. */
module Ipset {
  import opened Strings
  import opened Decimal
  import opened Cluster

  function ProtocolText(protocol: Protocol): string { if protocol == UDP then "udp" else "tcp" }

  /** `Entry.String` for a `hash:ip,port` set. */
  function EntryText(ip: string, protocol: Protocol, port: Port): string {
    ip + "," + ProtocolText(protocol) + ":" + Digits(port)
  }

  /** The texts themselves. */
  lemma EntryTextIs(ip: string, p: Port)
    ensures EntryText(ip, TCP, p) == ip + ",tcp:" + Digits(p)
    ensures EntryText(ip, UDP, p) == ip + ",udp:" + Digits(p)
  {
    hide Digits;
    assert "," + "tcp" + ":" == ",tcp:" && "," + "udp" + ":" == ",udp:";
  }

  lemma EntryTextInjective(ip: string, q: Protocol, p: Port, ip': string, q': Protocol, p': Port)
    requires EntryText(ip, q, p) == EntryText(ip', q', p')
    ensures ip == ip' && q == q' && p == p'
  {
    DigitsFreeOf(p, ':');
    DigitsFreeOf(p', ':');
    LastSeparator(ip + "," + ProtocolText(q), Digits(p), ip' + "," + ProtocolText(q'), Digits(p'), ':');
    DigitsInjective(p, p');
    LastSeparator(ip, ProtocolText(q), ip', ProtocolText(q'), ',');
    assert "tcp"[0] != "udp"[0];
  }

  /** An add or delete that was issued, and whether it succeeded. */
  datatype Call = Call(add: bool, entry: string, ok: bool)

  /** The entries after the calls of `log`. */
  function Replay(start: set<string>, log: seq<Call>): set<string>
    decreases |log|
  {
    if log == [] then start
    else
      var before, last := Replay(start, log[..|log| - 1]), log[|log| - 1];
      if !last.ok then before
      else if last.add then before + {last.entry} else before - {last.entry}
  }

  lemma ReplayAppend(start: set<string>, log: seq<Call>, c: Call)
    ensures Replay(start, log + [c]) ==
            var before := Replay(start, log);
            if !c.ok then before else if c.add then before + {c.entry} else before - {c.entry}
  {
    assert (log + [c])[..|log|] == log;
  }

  function Diff(entries: set<string>, goal: set<string>): set<string> {
    (entries - goal) + (goal - entries)
  }

  lemma DiffEmpty(entries: set<string>, goal: set<string>)
    ensures Diff(entries, goal) == {} <==> entries == goal
  {
    if Diff(entries, goal) == {} {
      assert entries - goal == {} && goal - entries == {};
    }
  }

  /** Every call from `from` on adds an entry of `goal` or deletes one it has not. */
  ghost predicate RightFrom(log: seq<Call>, from: nat, goal: set<string>) {
    from <= |log| && forall i | from <= i < |log| :: log[i].add == (log[i].entry in goal)
  }

  /** Whatever fails, calls that all go the right way never move the entries away from `goal`. */
  lemma {:induction false} Progress(start: set<string>, log: seq<Call>, from: nat, goal: set<string>)
    requires RightFrom(log, from, goal)
    ensures Diff(Replay(start, log), goal) <= Diff(Replay(start, log[..from]), goal)
    decreases |log|
  {
    if from == |log| {
      assert log[..from] == log;
    } else {
      var before := log[..|log| - 1];
      assert before[..from] == log[..from];
      Progress(start, before, from, goal);
    }
  }

  class Handler {
    var created: bool
    var entries: set<string>
    ghost const start: set<string>
    /** The adds and deletes issued so far. */
    ghost var log: seq<Call>
    ghost var faults: nat

    ghost predicate Valid()
      reads this
    {
      Replay(start, log) == entries && (!created ==> entries == {})
    }

    constructor (present: bool, initial: set<string>)
      requires !present ==> initial == {}
      ensures Valid() && created == present && entries == initial
    {
      created, entries, start, log, faults := present, initial, initial, [], 0;
    }

    /** With `ignoreExistErr`: an existing set keeps its entries. */
    method CreateSet() returns (ok: bool)
      requires Valid()
      modifies this`created, this`faults
      ensures Valid() && faults >= old(faults)
      ensures created == (old(created) || ok)
      ensures !ok ==> faults > old(faults)
    {
      ok := *;
      if ok { created := true; } else { faults := faults + 1; }
    }

    method ListEntries() returns (list: seq<string>, ok: bool)
      requires Valid()
      modifies this`faults
      ensures Valid() && faults >= old(faults)
      ensures ok ==> created && Lists(list, entries)
      ensures !ok && created ==> faults > old(faults)
    {
      list := [];
      ok := *;
      if !created {
        ok := false;
      } else if ok {
        list := Enumerate(entries);
      } else {
        faults := faults + 1;
      }
    }

    /** With `ignoreExistErr`: adding an entry that is there succeeds. */
    method AddEntry(entry: string) returns (ok: bool)
      requires Valid()
      modifies this
      ensures Valid() && faults >= old(faults) && created == old(created)
      ensures log == old(log) + [Call(true, entry, ok)]
      ensures entries == if ok then old(entries) + {entry} else old(entries)
      ensures !ok && created ==> faults > old(faults)
    {
      hide Replay;
      ok := *;
      if !created {
        ok := false;
      } else if ok {
        entries := entries + {entry};
      } else {
        faults := faults + 1;
      }
      ReplayAppend(start, log, Call(true, entry, ok));
      log := log + [Call(true, entry, ok)];
    }

    method DelEntry(entry: string) returns (ok: bool)
      requires Valid()
      modifies this
      ensures Valid() && faults >= old(faults) && created == old(created)
      ensures log == old(log) + [Call(false, entry, ok)]
      ensures entries == if ok then old(entries) - {entry} else old(entries)
      ensures !ok && entry in entries ==> faults > old(faults)
    {
      hide Replay;
      ok := *;
      if entry !in entries {
        ok := false;
      } else if ok {
        entries := entries - {entry};
      } else {
        faults := faults + 1;
      }
      ReplayAppend(start, log, Call(false, entry, ok));
      log := log + [Call(false, entry, ok)];
    }
  }
}

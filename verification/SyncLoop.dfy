/**
 The notification protocol of `server/bmlb`: handlers call `maybeSync`, which puts a token
 into a channel of two places unless it is full, and `syncing` takes tokens out, lists both
 stores and builds. Store changes, handler calls and the loop interleave freely.
 */
module SyncLoop {
  import opened Strings

  const CAPACITY: nat := 2

  /** Where `syncing` is. `Made`: the channel exists, its first send is still to come. */
  datatype Pc = Polling | Made | Waiting | Received | ListedServices | Building

  /** A store with its changes numbered from 1: how many there are, the last one a handler was
      called for, and the last one a `List` saw. */
  datatype Store = Store(changes: nat, notified: nat, listed: nat) {
    /** A change some handler was called for that no `List` has seen. */
    predicate Pending() { notified > listed }
  }

  datatype State = State(pc: Pc, channel: Option<nat>, services: Store, endpoints: Store, early: nat)

  datatype Which = Services | EndpointsOf

  datatype Event =
    | Change(which: Which)
    | Notify(which: Which, change: nat)
    | Make
    | FirstSend
    | Receive
    | Tick
    | ListServices
    | ListEndpoints
    | BuildDone

  const INIT := State(Polling, None, Store(0, 0, 0), Store(0, 0, 0), 0)

  function Get(s: State, which: Which): Store { if which.Services? then s.services else s.endpoints }

  function Put(s: State, which: Which, store: Store): State {
    if which.Services? then s.(services := store) else s.(endpoints := store)
  }

  function Tokens(s: State): nat { if s.channel.None? then 0 else s.channel.value }

  predicate Enabled(s: State, e: Event) {
    match e
    case Change(_) => true
    case Notify(which, change) => change <= Get(s, which).changes
    case Make => s.pc == Polling
    case FirstSend => s.pc == Made && Tokens(s) < CAPACITY
    case Receive => s.pc == Waiting && Tokens(s) > 0
    case Tick => s.pc == Waiting
    case ListServices => s.pc == Received
    case ListEndpoints => s.pc == ListedServices
    case BuildDone => s.pc == Building
  }

  /** `maybeSync`: nothing without a channel, otherwise a token unless the channel is full. */
  function MaybeSync(channel: Option<nat>): Option<nat> {
    if channel.Some? && channel.value < CAPACITY then Some(channel.value + 1) else channel
  }

  function Next(s: State, e: Event): State
    requires Enabled(s, e)
  {
    match e
    case Change(which) => Put(s, which, Get(s, which).(changes := Get(s, which).changes + 1))
    case Notify(which, change) =>
      var store := Get(s, which);
      var told := Put(s, which, store.(notified := if change > store.notified then change else store.notified));
      told.(channel := MaybeSync(s.channel), early := if s.pc == Made then s.early + 1 else s.early)
    case Make => s.(pc := Made, channel := Some(0))
    case FirstSend => s.(pc := Waiting, channel := Some(Tokens(s) + 1))
    case Receive => s.(pc := Received, channel := Some(Tokens(s) - 1))
    case Tick => s.(pc := Received)
    case ListServices => s.(pc := ListedServices, services := s.services.(listed := s.services.changes))
    case ListEndpoints => s.(pc := Building, endpoints := s.endpoints.(listed := s.endpoints.changes))
    case BuildDone => s.(pc := Waiting)
  }

  predicate CanRun(s: State, es: seq<Event>)
    decreases |es|
  {
    es == [] || (Enabled(s, es[0]) && CanRun(Next(s, es[0]), es[1..]))
  }

  function After(s: State, es: seq<Event>): State
    requires CanRun(s, es)
    decreases |es|
  {
    if es == [] then s else After(Next(s, es[0]), es[1..])
  }

  // ------------------------------------------------- safety

  /** The first send can never complete: the channel filled up before it. */
  predicate Stuck(s: State) { s.pc == Made && Tokens(s) == CAPACITY }

  predicate Inv(s: State) {
    && Tokens(s) <= CAPACITY && (s.channel.None? <==> s.pc == Polling)
    && s.services.listed <= s.services.changes && s.services.notified <= s.services.changes
    && s.endpoints.listed <= s.endpoints.changes && s.endpoints.notified <= s.endpoints.changes
    && (s.pc == Polling ==> s.early == 0)
    && (s.pc == Made ==> Tokens(s) == if s.early < CAPACITY then s.early else CAPACITY)
    && (s.pc != Polling && s.pc != Made ==> s.early < CAPACITY)
    && (s.services.Pending() ==> Tokens(s) > 0 || s.pc in {Polling, Made, Received})
    && (s.endpoints.Pending() ==> Tokens(s) > 0 || s.pc in {Polling, Made, Received, ListedServices})
  }

  lemma InvStep(s: State, e: Event)
    requires Inv(s) && Enabled(s, e)
    ensures Inv(Next(s, e))
  {
  }

  lemma {:induction false} InvRun(s: State, es: seq<Event>)
    requires Inv(s) && CanRun(s, es)
    ensures Inv(After(s, es))
    decreases |es|
  {
    if es != [] {
      InvStep(s, es[0]);
      InvRun(Next(s, es[0]), es[1..]);
    }
  }

  /**
   In every interleaving: a notified change newer than the last list of its store has a token
   waiting for it, or the loop is past its receive and before that list, or still starting up;
   and startup gets stuck exactly when two notifications land between making the channel and
   the first send.
   */
  lemma NoLostNotification(es: seq<Event>)
    requires CanRun(INIT, es)
    ensures var s := After(INIT, es);
            && (s.services.Pending() ==> Tokens(s) > 0 || s.pc in {Polling, Made, Received})
            && (s.endpoints.Pending() ==> Tokens(s) > 0 || s.pc in {Polling, Made, Received, ListedServices})
            && (Stuck(s) <==> s.pc == Made && s.early >= 2)
            && (s.early >= 2 ==> Stuck(s))
  {
    InvRun(INIT, es);
  }

  /** It does get stuck: two handlers are called between making the channel and the first send. */
  lemma CanGetStuck()
    ensures var es := [Make, Notify(Services, 0), Notify(Services, 0)]; CanRun(INIT, es) && Stuck(After(INIT, es))
  {
    var es := [Make, Notify(Services, 0), Notify(Services, 0)];
    assert es[1..] == [Notify(Services, 0), Notify(Services, 0)];
    assert es[1..][1..] == [Notify(Services, 0)] && es[1..][1..][1..] == [];
  }

  /** Once stuck, the loop never moves again and lists nothing, whatever the handlers do. */
  lemma {:induction false} StuckForever(s: State, es: seq<Event>)
    requires Stuck(s) && CanRun(s, es)
    ensures var s' := After(s, es);
            Stuck(s') && s'.services.listed == s.services.listed && s'.endpoints.listed == s.endpoints.listed
    decreases |es|
  {
    if es != [] {
      StuckForever(Next(s, es[0]), es[1..]);
    }
  }

  // ------------------------------------------------- delivery

  predicate IsLoopStep(e: Event) { !e.Change? && !e.Notify? }

  function LoopSteps(es: seq<Event>): nat {
    if es == [] then 0 else (if IsLoopStep(es[0]) then 1 else 0) + LoopSteps(es[1..])
  }

  /** How many steps the loop takes, from here, until it has listed that store. */
  function Distance(pc: Pc, which: Which): nat {
    match pc
    case Polling => if which.Services? then 4 else 5
    case Made => if which.Services? then 3 else 4
    case Waiting => if which.Services? then 2 else 3
    case Received => if which.Services? then 1 else 2
    case ListedServices => if which.Services? then 4 else 1
    case Building => if which.Services? then 3 else 4
  }

  /** Unless stuck, a pending change never has to wait for the minute tick. */
  lemma NeverWaitsForTick(es: seq<Event>, which: Which)
    requires CanRun(INIT, es)
    requires var s := After(INIT, es); Get(s, which).Pending() && !Stuck(s)
    ensures exists e | IsLoopStep(e) && e != Tick :: Enabled(After(INIT, es), e)
  {
    InvRun(INIT, es);
    var s := After(INIT, es);
    match s.pc
    case Polling => assert Enabled(s, Make);
    case Made => assert Enabled(s, FirstSend);
    case Waiting => assert Enabled(s, Receive);
    case Received => assert Enabled(s, ListServices);
    case ListedServices => assert Enabled(s, ListEndpoints);
    case Building => assert Enabled(s, BuildDone);
  }

  lemma StepMonotone(s: State, e: Event, which: Which)
    requires Inv(s) && Enabled(s, e)
    ensures Get(Next(s, e), which).changes >= Get(s, which).changes
    ensures Get(Next(s, e), which).listed >= Get(s, which).listed
    ensures IsLoopStep(e) ==> Get(Next(s, e), which).listed >= Get(s, which).changes
                              || Distance(Next(s, e).pc, which) < Distance(s.pc, which)
    ensures !IsLoopStep(e) ==> Next(s, e).pc == s.pc
  {
  }

  /** After that many loop steps, interleaved with anything, every change made before is listed. */
  lemma {:induction false} Delivered(s: State, es: seq<Event>, which: Which, change: nat)
    requires Inv(s) && CanRun(s, es) && change <= Get(s, which).changes
    requires change <= Get(s, which).listed || LoopSteps(es) >= Distance(s.pc, which)
    ensures Get(After(s, es), which).listed >= change
    decreases |es|
  {
    if es != [] {
      StepMonotone(s, es[0], which);
      InvStep(s, es[0]);
      Delivered(Next(s, es[0]), es[1..], which, change);
    }
  }
}

/**
 `utils/bits/bits.go` under any interleaving of any number of threads. A call is a load
 followed by a compare-and-swap, and `Allocate` repeats that pair ordinal by ordinal.
 Ordinals are counted from `min`; a call on an ordinal out of range touches nothing.
 */
module BitsRuns {
  import opened Words

  datatype Op = Allocate | Claim(ordinal: nat) | Revoke(ordinal: nat)

  /** Where a thread is: outside, about to load the word of `o`, or holding the word it loaded. */
  datatype Local = Idle | Before(op: Op, o: nat) | Loaded(op: Op, o: nat, word: bv32)

  datatype State = State(words: seq<bv32>, threads: map<nat, Local>) {
    function Of(t: nat): Local { if t in threads then threads[t] else Idle }
  }

  datatype Event = Start(t: nat, op: Op) | Load(t: nat) | Swap(t: nat)

  predicate Fits(op: Op, count: nat) { op.Allocate? || op.ordinal < count }

  /** `count` ordinals, all free. */
  function Init(count: nat): State
    requires count > 0
  {
    State(seq((count - 1) / 32 + 1, _ => 0), map[])
  }

  predicate Valid(s: State, count: nat) {
    && 0 < count <= 32 * |s.words|
    && forall t | t in s.threads :: !s.threads[t].Idle? ==> s.threads[t].o < count
  }

  predicate Enabled(s: State, e: Event, count: nat) {
    match e
    case Start(t, op) => s.Of(t).Idle? && Fits(op, count)
    case Load(t) => s.Of(t).Before?
    case Swap(t) => s.Of(t).Loaded?
  }

  /** The word the swap at `o` hopes to find, and the one it puts there. */
  function Expected(op: Op, loaded: bv32, o: nat): bv32 {
    if op.Revoke? then SetBit(loaded, o % 32) else ClearBit(loaded, o % 32)
  }

  function Replacement(op: Op, loaded: bv32, o: nat): bv32 {
    if op.Revoke? then ClearBit(loaded, o % 32) else SetBit(loaded, o % 32)
  }

  /** `e` is a swap that finds the word it expects. */
  predicate Succeeds(s: State, e: Event, count: nat)
    requires Valid(s, count) && Enabled(s, e, count)
  {
    e.Swap? && var l := s.Of(e.t); s.words[l.o / 32] == Expected(l.op, l.word, l.o)
  }

  /** A failed swap moves `Allocate` to the next ordinal; after the last one it returns nil. */
  function Next(s: State, e: Event, count: nat): State
    requires Valid(s, count) && Enabled(s, e, count)
  {
    match e
    case Start(t, op) => s.(threads := s.threads[t := Before(op, if op.Allocate? then 0 else op.ordinal)])
    case Load(t) =>
      var l := s.Of(t);
      s.(threads := s.threads[t := Loaded(l.op, l.o, s.words[l.o / 32])])
    case Swap(t) =>
      var l := s.Of(t);
      if Succeeds(s, e, count) then
        State(s.words[l.o / 32 := Replacement(l.op, l.word, l.o)], s.threads[t := Idle])
      else
        s.(threads := s.threads[t := if l.op.Allocate? && l.o + 1 < count then Before(l.op, l.o + 1) else Idle])
  }

  lemma NextValid(s: State, e: Event, count: nat)
    requires Valid(s, count) && Enabled(s, e, count)
    ensures Valid(Next(s, e, count), count)
  {
    hide Expected;
    hide Replacement;
  }

  // ------------------------------------------------- one step

  /** The bit a step changes is the one of the ordinal it succeeds at, and that one does flip. */
  lemma StepFlips(s: State, e: Event, count: nat, o: nat)
    requires Valid(s, count) && Enabled(s, e, count) && o < count
    ensures |Next(s, e, count).words| == |s.words|
    ensures Succeeds(s, e, count) && s.Of(e.t).o == o ==>
              IsSet(s.words, o) == s.Of(e.t).op.Revoke? && IsSet(Next(s, e, count).words, o) == !s.Of(e.t).op.Revoke?
    ensures !(Succeeds(s, e, count) && s.Of(e.t).o == o) ==> IsSet(Next(s, e, count).words, o) == IsSet(s.words, o)
  {
    hide SetBit;
    hide ClearBit;
    hide Bit;
    if Succeeds(s, e, count) {
      var l := s.Of(e.t);
      SwapFlips(s.words[l.o / 32], l.word, l.o % 32);
      UpdateOne(s.words, l.o, o);
    }
  }

  // ------------------------------------------------- runs

  ghost predicate Run(count: nat, ss: seq<State>, es: seq<Event>) {
    && count > 0 && |ss| == |es| + 1 && ss[0] == Init(count)
    && (forall k | 0 <= k < |ss| :: Valid(ss[k], count))
    && forall k | 0 <= k < |es| :: Enabled(ss[k], es[k], count) && Advance(count, ss, es, k)
  }

  ghost predicate Advance(count: nat, ss: seq<State>, es: seq<Event>, k: nat)
    requires |ss| == |es| + 1 && k < |es| && Valid(ss[k], count) && Enabled(ss[k], es[k], count)
  {
    ss[k + 1] == Next(ss[k], es[k], count)
  }

  lemma RunLength(count: nat, ss: seq<State>, es: seq<Event>)
    requires Run(count, ss, es)
    ensures |ss| == |es| + 1 && count > 0 && forall t :: ss[0].Of(t) == Idle
  {
    hide Valid;
    hide Enabled;
    hide Next;
  }

  lemma RunAt(count: nat, ss: seq<State>, es: seq<Event>, k: nat)
    requires Run(count, ss, es) && k < |es|
    ensures |ss| == |es| + 1 && Valid(ss[k], count) && Enabled(ss[k], es[k], count)
    ensures Valid(ss[k + 1], count) && ss[k + 1] == Next(ss[k], es[k], count)
  {
    hide Valid;
    hide Enabled;
    hide Next;
    assert Advance(count, ss, es, k);
  }

  /** Every run can be continued by any enabled event, so runs are all the interleavings. */
  lemma RunExtends(count: nat, ss: seq<State>, es: seq<Event>, e: Event)
    requires Run(count, ss, es) && Enabled(ss[|es|], e, count)
    ensures Run(count, ss + [Next(ss[|es|], e, count)], es + [e])
  {
    hide Next;
    NextValid(ss[|es|], e, count);
    var ss', es' := ss + [Next(ss[|es|], e, count)], es + [e];
    assert forall k | 0 <= k < |ss'| :: Valid(ss'[k], count);
    forall k | 0 <= k < |es'| ensures Enabled(ss'[k], es'[k], count) && Advance(count, ss', es', k) {
      if k < |es| { assert Advance(count, ss, es, k); }
    }
  }

  /** Event `k` of the run succeeds at ordinal `o`, as a revocation or as an allocation. */
  ghost predicate SucceedsAt(count: nat, ss: seq<State>, es: seq<Event>, k: nat, o: nat, revoke: bool)
    requires Run(count, ss, es)
  {
    && k < |es| && Succeeds(ss[k], es[k], count)
    && ss[k].Of(es[k].t).o == o && ss[k].Of(es[k].t).op.Revoke? == revoke
  }

  ghost predicate BitAt(count: nat, ss: seq<State>, es: seq<Event>, k: nat, o: nat)
    requires Run(count, ss, es) && k < |ss| && o < count
  {
    IsSet(ss[k].words, o)
  }

  lemma RunFlips(count: nat, ss: seq<State>, es: seq<Event>, k: nat, o: nat)
    requires Run(count, ss, es) && k < |es| && o < count
    ensures SucceedsAt(count, ss, es, k, o, true) ==> BitAt(count, ss, es, k, o) && !BitAt(count, ss, es, k + 1, o)
    ensures SucceedsAt(count, ss, es, k, o, false) ==> !BitAt(count, ss, es, k, o) && BitAt(count, ss, es, k + 1, o)
    ensures !SucceedsAt(count, ss, es, k, o, true) && !SucceedsAt(count, ss, es, k, o, false) ==>
              BitAt(count, ss, es, k + 1, o) == BitAt(count, ss, es, k, o)
  {
    hide Run;
    hide Valid;
    hide Enabled;
    hide Next;
    hide Succeeds;
    hide IsSet;
    RunAt(count, ss, es, k);
    StepFlips(ss[k], es[k], count, o);
  }

  /** `o` is outstanding after `k` events: the last success at `o` was an allocation. */
  ghost predicate Outstanding(count: nat, ss: seq<State>, es: seq<Event>, k: nat, o: nat)
    requires Run(count, ss, es) && k < |ss| && o < count
  {
    k > 0 && (SucceedsAt(count, ss, es, k - 1, o, false)
              || (!SucceedsAt(count, ss, es, k - 1, o, true) && Outstanding(count, ss, es, k - 1, o)))
  }

  /** In every reachable state the bitmap is exactly the set of outstanding allocations. */
  lemma {:induction false} BitmapIsOutstanding(count: nat, ss: seq<State>, es: seq<Event>, k: nat, o: nat)
    requires Run(count, ss, es) && k < |ss| && o < count
    ensures BitAt(count, ss, es, k, o) <==> Outstanding(count, ss, es, k, o)
  {
    hide Run;
    hide SucceedsAt;
    hide BitAt;
    RunLength(count, ss, es);
    if k == 0 {
      InitFree(count, ss, es, o);
    } else {
      BitmapIsOutstanding(count, ss, es, k - 1, o);
      RunFlips(count, ss, es, k - 1, o);
    }
  }

  lemma InitFree(count: nat, ss: seq<State>, es: seq<Event>, o: nat)
    requires Run(count, ss, es) && o < count
    ensures !BitAt(count, ss, es, 0, o)
  {
    ZeroWords(ss[0].words, o);
  }

  /** A bit that goes from set to clear was revoked in between; from clear to set, allocated. */
  lemma {:induction false} FlippedBetween(count: nat, ss: seq<State>, es: seq<Event>, from: nat, upto: nat, o: nat,
                                          revoke: bool)
    requires Run(count, ss, es) && from <= upto < |ss| && o < count
    requires BitAt(count, ss, es, from, o) == revoke && BitAt(count, ss, es, upto, o) == !revoke
    ensures exists m | from <= m < upto :: SucceedsAt(count, ss, es, m, o, revoke)
    decreases upto
  {
    hide Run;
    hide SucceedsAt;
    hide BitAt;
    RunLength(count, ss, es);
    RunFlips(count, ss, es, upto - 1, o);
    if BitAt(count, ss, es, upto - 1, o) == !revoke {
      FlippedBetween(count, ss, es, from, upto - 1, o, revoke);
    }
  }

  lemma SuccessInRun(count: nat, ss: seq<State>, es: seq<Event>, k: nat, o: nat, revoke: bool)
    requires Run(count, ss, es) && SucceedsAt(count, ss, es, k, o, revoke)
    ensures k < |es|
  {
  }

  /** No ordinal is handed out twice, whatever the interleaving, unless it was revoked in between. */
  lemma NoDoubleAllocation(count: nat, ss: seq<State>, es: seq<Event>, j: nat, k: nat, o: nat)
    requires Run(count, ss, es) && o < count && j < k
    requires SucceedsAt(count, ss, es, j, o, false) && SucceedsAt(count, ss, es, k, o, false)
    ensures exists m | j < m < k :: SucceedsAt(count, ss, es, m, o, true)
  {
    hide Run;
    hide SucceedsAt;
    hide BitAt;
    SuccessInRun(count, ss, es, j, o, false);
    SuccessInRun(count, ss, es, k, o, false);
    RunLength(count, ss, es);
    RunFlips(count, ss, es, j, o);
    RunFlips(count, ss, es, k, o);
    FlippedBetween(count, ss, es, j + 1, k, o, true);
  }

  /** Nor revoked twice, unless it was handed out in between. */
  lemma NoDoubleRevocation(count: nat, ss: seq<State>, es: seq<Event>, j: nat, k: nat, o: nat)
    requires Run(count, ss, es) && o < count && j < k
    requires SucceedsAt(count, ss, es, j, o, true) && SucceedsAt(count, ss, es, k, o, true)
    ensures exists m | j < m < k :: SucceedsAt(count, ss, es, m, o, false)
  {
    hide Run;
    hide SucceedsAt;
    hide BitAt;
    SuccessInRun(count, ss, es, j, o, true);
    SuccessInRun(count, ss, es, k, o, true);
    RunLength(count, ss, es);
    RunFlips(count, ss, es, j, o);
    RunFlips(count, ss, es, k, o);
    FlippedBetween(count, ss, es, j + 1, k, o, false);
  }

  // ------------------------------------------------- a call nobody interferes with

  ghost predicate AboutToSwap(s: State, s': State, count: nat, t: nat, op: Op, o: nat)
    requires Valid(s, count) && o < count
  {
    Valid(s', count) && s'.words == s.words && s'.Of(t) == Loaded(op, o, s.words[o / 32])
  }

  lemma StartAndLoad(s: State, count: nat, t: nat, op: Op, o: nat)
    requires Valid(s, count) && s.Of(t).Idle? && o < count && (op == Claim(o) || op == Revoke(o))
    ensures var started := Next(s, Start(t, op), count);
            && Valid(started, count) && Enabled(started, Load(t), count)
            && AboutToSwap(s, Next(started, Load(t), count), count, t, op, o)
  {
  }

  lemma UncontendedSwap(s: State, s': State, count: nat, t: nat, op: Op, o: nat)
    requires Valid(s, count) && o < count && AboutToSwap(s, s', count, t, op, o)
    ensures Succeeds(s', Swap(t), count) <==> (IsSet(s.words, o) <==> op.Revoke?)
  {
    hide SetBit;
    hide ClearBit;
    hide Bit;
    ExpectsLoaded(s.words[o / 32], o % 32);
  }

  /**
   From any reachable state, an idle thread that is left alone for its three steps succeeds exactly
   when the bit is not yet the way it wants it.
   */
  lemma Alone(count: nat, ss: seq<State>, es: seq<Event>, t: nat, op: Op, o: nat) returns (ss': seq<State>)
    requires Run(count, ss, es) && o < count && (op == Claim(o) || op == Revoke(o)) && ss[|es|].Of(t).Idle?
    ensures Run(count, ss', es + [Start(t, op)] + [Load(t)] + [Swap(t)]) && ss <= ss'
    ensures SucceedsAt(count, ss', es + [Start(t, op)] + [Load(t)] + [Swap(t)], |es| + 2, o, op.Revoke?)
            <==> (BitAt(count, ss, es, |es|, o) <==> op.Revoke?)
  {
    var s := ss[|es|];
    StartAndLoad(s, count, t, op, o);
    var s1 := Next(s, Start(t, op), count);
    var s2 := Next(s1, Load(t), count);
    UncontendedSwap(s, s2, count, t, op, o);
    hide Init;
    hide Expected;
    hide Replacement;
    hide Next;
    hide Succeeds;
    hide IsSet;
    hide Valid;
    RunExtends(count, ss, es, Start(t, op));
    RunExtends(count, ss + [s1], es + [Start(t, op)], Load(t));
    RunExtends(count, ss + [s1] + [s2], es + [Start(t, op)] + [Load(t)], Swap(t));
    ss' := ss + [s1] + [s2] + [Next(s2, Swap(t), count)];
    assert ss'[|es| + 2] == s2;
  }

  // ------------------------------------------------- why an attempt fails

  /** Event `k` is a failed swap by `t` at `o`. */
  ghost predicate FailsAt(count: nat, ss: seq<State>, es: seq<Event>, k: nat, t: nat, o: nat, op: Op)
    requires Run(count, ss, es)
  {
    && k < |es| && es[k] == Swap(t) && !Succeeds(ss[k], es[k], count)
    && ss[k].Of(t).op == op && ss[k].Of(t).o == o
  }

  /** Event `j` is the load by `t` at `o` whose word `t` still holds before event `k`. */
  ghost predicate LoadedBy(count: nat, ss: seq<State>, es: seq<Event>, j: nat, k: nat, t: nat, o: nat, op: Op)
    requires Run(count, ss, es)
  {
    && j < k < |ss| && o < count && es[j] == Load(t) && ss[j].Of(t) == Before(op, o)
    && ss[k].Of(t) == Loaded(op, o, ss[j].words[o / 32])
    && forall m | j < m < k :: es[m].t != t
  }

  lemma StepOther(s: State, e: Event, count: nat, t: nat)
    requires Valid(s, count) && Enabled(s, e, count) && e.t != t
    ensures Next(s, e, count).Of(t) == s.Of(t)
  {
    hide Expected;
    hide Replacement;
  }

  lemma {:induction false} FindLoad(count: nat, ss: seq<State>, es: seq<Event>, k: nat, t: nat) returns (j: nat)
    requires Run(count, ss, es) && k < |ss| && ss[k].Of(t).Loaded?
    ensures LoadedBy(count, ss, es, j, k, t, ss[k].Of(t).o, ss[k].Of(t).op)
  {
    hide Run;
    hide Valid;
    hide Next;
    hide LoadedBy;
    RunLength(count, ss, es);
    assert ss[0].Of(t) == Idle;
    RunAt(count, ss, es, k - 1);
    var s, e := ss[k - 1], es[k - 1];
    if e.t == t {
      j := k - 1;
      OnlyLoads(s, e, count);
      JustLoaded(count, ss, es, j, t);
    } else {
      StepOther(s, e, count, t);
      j := FindLoad(count, ss, es, k - 1, t);
      StillLoaded(count, ss, es, j, k - 1, t, s.Of(t).o, s.Of(t).op);
    }
  }

  lemma OnlyLoads(s: State, e: Event, count: nat)
    requires Valid(s, count) && Enabled(s, e, count) && Next(s, e, count).Of(e.t).Loaded?
    ensures e.Load?
  {
    hide Expected;
    hide Replacement;
  }

  lemma JustLoaded(count: nat, ss: seq<State>, es: seq<Event>, j: nat, t: nat)
    requires Run(count, ss, es) && j < |es| && es[j] == Load(t)
    ensures ss[j + 1].Of(t).Loaded? && LoadedBy(count, ss, es, j, j + 1, t, ss[j + 1].Of(t).o, ss[j + 1].Of(t).op)
  {
    hide Run;
    RunAt(count, ss, es, j);
  }

  lemma StillLoaded(count: nat, ss: seq<State>, es: seq<Event>, j: nat, k: nat, t: nat, o: nat, op: Op)
    requires Run(count, ss, es) && LoadedBy(count, ss, es, j, k, t, o, op) && k < |es| && es[k].t != t
    ensures LoadedBy(count, ss, es, j, k + 1, t, o, op)
  {
    hide Run;
    hide Valid;
    hide Next;
    RunLength(count, ss, es);
    RunAt(count, ss, es, k);
    StepOther(ss[k], es[k], count, t);
  }

  /** Some success on the word of `o`, by a thread other than `t`, among the events in `[from, upto)`. */
  ghost predicate Interfered(count: nat, ss: seq<State>, es: seq<Event>, from: nat, upto: nat, t: nat, o: nat)
    requires Run(count, ss, es)
  {
    exists m: nat | from <= m < upto && m < |es| :: es[m].t != t && SucceedsOnWord(ss[m], es[m], count, o)
  }

  /** `e` succeeds on the word that holds ordinal `o`. */
  ghost predicate SucceedsOnWord(s: State, e: Event, count: nat, o: nat)
    requires Valid(s, count) && Enabled(s, e, count)
  {
    Succeeds(s, e, count) && s.Of(e.t).o / 32 == o / 32
  }

  lemma StepWord(s: State, e: Event, count: nat, o: nat)
    requires Valid(s, count) && Enabled(s, e, count) && o < count
    requires !SucceedsOnWord(s, e, count, o)
    ensures |Next(s, e, count).words| == |s.words| && Next(s, e, count).words[o / 32] == s.words[o / 32]
  {
    hide Expected;
    hide Replacement;
  }

  lemma {:induction false} WordChanged(count: nat, ss: seq<State>, es: seq<Event>, from: nat, upto: nat, t: nat, o: nat)
    requires Run(count, ss, es) && from <= upto < |ss| && o < count
    requires forall m | from <= m < upto :: es[m].t != t
    requires ss[from].words[o / 32] != ss[upto].words[o / 32]
    ensures Interfered(count, ss, es, from, upto, t, o)
    decreases upto
  {
    hide Run;
    hide Valid;
    hide Enabled;
    hide Next;
    hide SucceedsOnWord;
    RunLength(count, ss, es);
    RunAt(count, ss, es, upto - 1);
    if !SucceedsOnWord(ss[upto - 1], es[upto - 1], count, o) {
      StepWord(ss[upto - 1], es[upto - 1], count, o);
      WordChanged(count, ss, es, from, upto - 1, t, o);
    }
  }

  /**
   A failed attempt is somebody else's doing: either the bit was already the way the call
   wanted it when it was loaded, or another thread succeeded on the same word since.
   */
  lemma FailureCause(count: nat, ss: seq<State>, es: seq<Event>, k: nat, t: nat, o: nat, op: Op) returns (j: nat)
    requires Run(count, ss, es) && FailsAt(count, ss, es, k, t, o, op)
    ensures LoadedBy(count, ss, es, j, k, t, o, op)
    ensures IsSet(ss[j].words, o) == !op.Revoke? || Interfered(count, ss, es, j + 1, k, t, o)
  {
    j := FindLoad(count, ss, es, k, t);
    assert Valid(ss[j], count) && Valid(ss[k], count) && Advance(count, ss, es, j);
    assert ss[j + 1].words == ss[j].words;
    var loaded := ss[j].words[o / 32];
    ExpectsLoaded(loaded, o % 32);
    hide Run;
    hide SetBit;
    hide ClearBit;
    hide Bit;
    if IsSet(ss[j].words, o) == op.Revoke? {
      assert Expected(op, loaded, o) == loaded;
      assert ss[k].words[o / 32] != loaded;
      WordChanged(count, ss, es, j + 1, k, t, o);
    }
  }

  // ------------------------------------------------- why Allocate returns nil

  /** From event `s0` on, thread `t` has tried and failed at every ordinal below `o`. */
  ghost predicate Scanned(count: nat, ss: seq<State>, es: seq<Event>, s0: nat, k: nat, t: nat, o: nat)
    requires Run(count, ss, es)
  {
    && s0 < k < |ss| && es[s0] == Start(t, Allocate)
    && forall q: nat | q < o :: TriedBetween(count, ss, es, s0, k, t, q)
  }

  ghost predicate TriedBetween(count: nat, ss: seq<State>, es: seq<Event>, s0: nat, k: nat, t: nat, q: nat)
    requires Run(count, ss, es)
  {
    exists m: nat | s0 < m < k :: FailsAt(count, ss, es, m, t, q, Allocate)
  }

  lemma ScannedLater(count: nat, ss: seq<State>, es: seq<Event>, s0: nat, k: nat, k': nat, t: nat, o: nat)
    requires Run(count, ss, es) && Scanned(count, ss, es, s0, k, t, o) && k <= k' < |ss|
    ensures Scanned(count, ss, es, s0, k', t, o)
  {
    hide Run;
    hide FailsAt;
    forall q: nat | q < o ensures TriedBetween(count, ss, es, s0, k', t, q) {
      assert TriedBetween(count, ss, es, s0, k, t, q);
    }
  }

  lemma {:induction false} FindScan(count: nat, ss: seq<State>, es: seq<Event>, k: nat, t: nat) returns (s0: nat)
    requires Run(count, ss, es) && k < |ss| && !ss[k].Of(t).Idle? && ss[k].Of(t).op == Allocate
    ensures s0 < k <= |es| && Scanned(count, ss, es, s0, k, t, ss[k].Of(t).o)
    ensures forall m | s0 < m < k && es[m].t == t :: !es[m].Start?
  {
    hide Run;
    hide Valid;
    hide Next;
    hide Scanned;
    RunLength(count, ss, es);
    assert ss[0].Of(t) == Idle;
    RunAt(count, ss, es, k - 1);
    var s, e := ss[k - 1], es[k - 1];
    if e.t != t {
      StepOther(s, e, count, t);
      s0 := FindScan(count, ss, es, k - 1, t);
      ScannedLater(count, ss, es, s0, k - 1, k, t, ss[k].Of(t).o);
    } else {
      ScanStep(s, e, count);
      if e.Start? {
        s0 := k - 1;
        ScannedNone(count, ss, es, s0, t);
      } else {
        s0 := FindScan(count, ss, es, k - 1, t);
        ScannedLater(count, ss, es, s0, k - 1, k, t, s.Of(t).o);
        if e.Swap? {
          ScannedMore(count, ss, es, s0, k - 1, k, t, s.Of(t).o);
        }
      }
    }
  }

  /** How a thread comes to be inside `Allocate`. */
  lemma ScanStep(s: State, e: Event, count: nat)
    requires Valid(s, count) && Enabled(s, e, count)
    requires var l := Next(s, e, count).Of(e.t); !l.Idle? && l.op == Allocate
    ensures match e
            case Start(t, op) => op == Allocate && Next(s, e, count).Of(t).o == 0
            case Load(t) => s.Of(t).op == Allocate && Next(s, e, count).Of(t).o == s.Of(t).o
            case Swap(t) =>
              s.Of(t).op == Allocate && !Succeeds(s, e, count) && Next(s, e, count).Of(t).o == s.Of(t).o + 1
  {
    hide Expected;
    hide Replacement;
  }

  lemma ScannedNone(count: nat, ss: seq<State>, es: seq<Event>, s0: nat, t: nat)
    requires Run(count, ss, es) && s0 < |es| && es[s0] == Start(t, Allocate)
    ensures Scanned(count, ss, es, s0, s0 + 1, t, 0)
  {
    hide Run;
    RunLength(count, ss, es);
  }

  lemma ScannedMore(count: nat, ss: seq<State>, es: seq<Event>, s0: nat, k: nat, k': nat, t: nat, o: nat)
    requires Run(count, ss, es) && s0 < k < k' && Scanned(count, ss, es, s0, k', t, o)
    requires FailsAt(count, ss, es, k, t, o, Allocate)
    ensures Scanned(count, ss, es, s0, k', t, o + 1)
  {
    hide Run;
    hide FailsAt;
    assert TriedBetween(count, ss, es, s0, k', t, o);
  }

  /** The attempt by `t` at `q` failed for a reason outside `t`. */
  ghost predicate Excused(count: nat, ss: seq<State>, es: seq<Event>, s0: nat, k: nat, t: nat, q: nat)
    requires Run(count, ss, es)
  {
    exists j: nat, m: nat | j < m <= k ::
      && s0 < m && FailsAt(count, ss, es, m, t, q, Allocate) && LoadedBy(count, ss, es, j, m, t, q, Allocate)
      && (IsSet(ss[j].words, q) || Interfered(count, ss, es, j + 1, m, t, q))
  }

  /** When `Allocate` returns nil, every ordinal in range was taken, or its word contended, during the call. */
  lemma NilExplained(count: nat, ss: seq<State>, es: seq<Event>, k: nat, t: nat) returns (s0: nat)
    requires Run(count, ss, es) && FailsAt(count, ss, es, k, t, count - 1, Allocate)
    ensures s0 < k && es[s0] == Start(t, Allocate) && forall m | s0 < m < k && es[m].t == t :: !es[m].Start?
    ensures forall q: nat | q < count :: Excused(count, ss, es, s0, k, t, q)
  {
    s0 := FindScan(count, ss, es, k, t);
    hide Run;
    hide FailsAt;
    hide LoadedBy;
    hide Interfered;
    hide IsSet;
    forall q: nat | q < count ensures Excused(count, ss, es, s0, k, t, q) {
      var m := k;
      if q < count - 1 {
        assert TriedBetween(count, ss, es, s0, k, t, q);
        m :| s0 < m < k && FailsAt(count, ss, es, m, t, q, Allocate);
      }
      var j := FailureCause(count, ss, es, m, t, q, Allocate);
      LoadPrecedes(count, ss, es, j, m, t, q, Allocate);
    }
  }

  lemma LoadPrecedes(count: nat, ss: seq<State>, es: seq<Event>, j: nat, k: nat, t: nat, o: nat, op: Op)
    requires Run(count, ss, es) && LoadedBy(count, ss, es, j, k, t, o, op)
    ensures j < k
  {
  }
}

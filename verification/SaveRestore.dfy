/**
 Restoring what was saved: `SaveInto` followed by `restore`
 (`utils/iptables/testing/fake_iptables.go`).
 */
module SaveRestore {
  import opened Strings
  import opened Lines
  import opened Rules
  import opened SaveFormat
  import opened FakeIptables

  /** Table `t` with the chains `m` put over what it has. */
  function Overlay(ts: Tables, t: string, m: Chains): Tables { ts[t := ChainsOf(ts, t) + m] }

  /** What is left in chain `c` once its chain line has been read. */
  function Emptied(cfg: Config, ts: Tables, t: string, c: string): seq<string> {
    if cfg.flush || cfg.Empties(t, c) then [] else RulesOf(ts, t, c)
  }

  /** Rules appended one by one, those already there skipped. */
  function Refill(have: seq<string>, rules: seq<string>): seq<string>
    decreases |rules|
  {
    if rules == [] then have else Refill(Put(have, rules[0]), rules[1..])
  }

  function Put(have: seq<string>, rule: string): seq<string> { if rule in have then have else have + [rule] }

  /** The same with each rule normalised first; None when one is refused or panics. */
  function Fill(have: seq<string>, rules: seq<string>, isIP: string -> bool): Option<seq<string>>
    decreases |rules|
  {
    if rules == [] then Some(have)
    else
      match Normalize(rules[0], isIP)
      case Normal(n) => Fill(Put(have, n), rules[1..], isIP)
      case _ => None
  }

  function Filled(have: seq<string>, rules: seq<string>, isIP: string -> bool): seq<string> {
    var r := Fill(have, rules, isIP);
    if r.Some? then r.value else have
  }

  predicate Failed(turn: Turn) { turn.Reject? || turn.Crash? }

  ghost predicate Selected(cfg: Config, t: string) { t != "" && (cfg.only == "" || cfg.only == t) }

  // ------------------------------------------------- one line

  lemma DispatchChain(cfg: Config, ts: Tables, t: string, line: string)
    requires Selected(cfg, t) && line != "" && line[0] == ':'
    ensures RestoreLine(cfg, ts, t, line) == ChainTurn(cfg, ts, t, line)
  {
    hide ChainTurn;
    hide Split;
    assert "#"[0] == '#' && "*"[0] == '*';
  }

  lemma DispatchAppend(cfg: Config, ts: Tables, t: string, line: string)
    requires Selected(cfg, t) && "-A" <= line
    ensures RestoreLine(cfg, ts, t, line) == RuleTurn(cfg, ts, t, line, Append)
  {
    hide RuleTurn;
    hide ChainTurn;
    hide Split;
    assert line[0] == "-A"[0] == '-';
    assert "#"[0] == '#' && "*"[0] == '*' && ":"[0] == ':';
  }

  lemma ChainLineName(c: string)
    requires ' ' !in c
    ensures Split(MakeChainLine(c)[1..], ' ')[0] == c
  {
    assert MakeChainLine(c)[1..] == c + [' '] + "- [0:0]";
    SplitFirst(c, "- [0:0]", ' ');
  }

  lemma ChainStep(cfg: Config, ts: Tables, t: string, c: string)
    requires Selected(cfg, t) && PlainName(c)
    ensures RestoreLine(cfg, ts, t, MakeChainLine(c)) == Continue(Overlay(ts, t, map[c := Emptied(cfg, ts, t, c)]), t)
  {
    var line := MakeChainLine(c);
    assert line != "" && line[0] == ':';
    ChainLineName(c);
    DispatchChain(cfg, ts, t, line);
    ChainStepTables(cfg, ts, t, c);
    hide RestoreLine;
    hide Contains;
    hide Split;
    hide Overlay;
    hide SetChain;
    hide WithChain;
    hide WithoutChain;
    hide Emptied;
    hide MakeChainLine;
  }

  lemma ChainStepTables(cfg: Config, ts: Tables, t: string, c: string)
    ensures var flushed := if cfg.flush then WithoutChain(ts, t, c) else ts;
            var made := WithChain(flushed, t, c);
            (if cfg.Empties(t, c) then SetChain(made, t, c, []) else made)
            == Overlay(ts, t, map[c := Emptied(cfg, ts, t, c)])
  {
    hide Contains;
    hide SetChain;
    hide Overlay;
    var flushed := if cfg.flush then WithoutChain(ts, t, c) else ts;
    SetChainIs(ts, t, c, []);
    SetAfterRemoval(ts, t, c);
    SetAfterSet(ts, t, c);
    OverlayOwn(ts, t, map[c := RulesOf(ts, t, c)]);
  }

  lemma SetChainIs(ts: Tables, t: string, c: string, rules: seq<string>)
    ensures SetChain(ts, t, c, rules) == Overlay(ts, t, map[c := rules])
  {
    assert ChainsOf(ts, t)[c := rules] == ChainsOf(ts, t) + map[c := rules];
  }

  lemma SetAfterRemoval(ts: Tables, t: string, c: string)
    ensures SetChain(WithoutChain(ts, t, c), t, c, []) == SetChain(ts, t, c, [])
    ensures !HasChain(WithoutChain(ts, t, c), t, c)
  {
    assert ChainsOf(WithoutChain(ts, t, c), t)[c := []] == ChainsOf(ts, t)[c := []];
  }

  lemma SetAfterSet(ts: Tables, t: string, c: string)
    ensures SetChain(SetChain(ts, t, c, []), t, c, []) == SetChain(ts, t, c, [])
  {
    var chains := ChainsOf(ts, t);
    assert chains[c := []][c := []] == chains[c := []];
  }

  /** Putting what is there over it changes nothing. */
  lemma OverlayOwn(ts: Tables, t: string, m: Chains)
    ensures t in ts && (forall c | c in m :: c in ts[t] && m[c] == ts[t][c]) ==> Overlay(ts, t, m) == ts
  {
    if t in ts && (forall c | c in m :: c in ts[t] && m[c] == ts[t][c]) {
      assert ts[t] + m == ts[t];
    }
  }

  lemma OverlayAt(ts: Tables, t: string, m: Chains, c: string)
    ensures RulesOf(Overlay(ts, t, m), t, c) == if c in m then m[c] else RulesOf(ts, t, c)
    ensures HasChain(Overlay(ts, t, m), t, c) <==> c in m || HasChain(ts, t, c)
    ensures t in Overlay(ts, t, m)
  {
  }

  lemma RulesThere(ts: Tables, t: string, c: string)
    requires HasChain(ts, t, c)
    ensures RulesOf(ts, t, c) == ts[t][c]
  {
  }

  lemma RuleLineParts(c: string, r: string)
    requires ' ' !in c
    ensures var line := RuleLine(c, r);
            var parts := Split(line, ' ');
            "-A" <= line && line[..2] == "-A" && |parts| >= 3 && parts[1] == c
    ensures RuleLine(c, r) == "-A" + " " + c + " " + r
  {
    var line := RuleLine(c, r);
    hide Split;
    var rest := c + [' '] + r;
    assert line == "-A" + [' '] + rest;
    SplitFirst("-A", rest, ' ');
    SplitFirst(c, r, ' ');
  }

  lemma RuleStep(cfg: Config, ts: Tables, t: string, c: string, r: string)
    requires Selected(cfg, t) && PlainName(c) && HasChain(ts, t, c)
    ensures var n, turn := Normalize(r, cfg.isIP), RestoreLine(cfg, ts, t, RuleLine(c, r));
            if n.Normal? then turn == Continue(Overlay(ts, t, map[c := Put(ts[t][c], n.rule)]), t) else Failed(turn)
  {
    var line := RuleLine(c, r);
    RuleLineParts(c, r);
    DispatchAppend(cfg, ts, t, line);
    RuleOutcome(cfg, ts, t, c, r);
    hide RestoreLine;
    hide Split;
    hide RuleLine;
    hide WithRule;
    hide Overlay;
    hide Normalize;
    hide Put;
    var prefix := line[..2] + " " + c + " ";
    assert line == prefix + r;
    assert line[|prefix|..] == r;
  }

  lemma RuleOutcome(cfg: Config, ts: Tables, t: string, c: string, r: string)
    requires HasChain(ts, t, c)
    ensures var n, done := Normalize(r, cfg.isIP), WithRule(ts, Append, t, c, r, cfg.isIP);
            if n.Normal?
            then done.0 == Overlay(ts, t, map[c := Put(ts[t][c], n.rule)]) && (done.1.Existed? || done.1.Added?)
            else done.1.Failed? || done.1.Crashed?
  {
    hide Normalize;
    hide SetChain;
    hide Overlay;
    var rules := ts[t][c];
    if Normalize(r, cfg.isIP).Normal? {
      SetChainIs(ts, t, c, rules + [Normalize(r, cfg.isIP).rule]);
      OverlayOwn(ts, t, map[c := rules]);
    }
  }

  lemma OverlayTwice(ts: Tables, t: string, a: Chains, b: Chains)
    ensures Overlay(Overlay(ts, t, a), t, b) == Overlay(ts, t, a + b)
  {
    assert ChainsOf(ts, t) + a + b == ChainsOf(ts, t) + (a + b);
  }

  // ------------------------------------------------- the chain lines

  function Openings(cfg: Config, ts: Tables, t: string, names: seq<string>): Chains {
    map c | c in names :: Emptied(cfg, ts, t, c)
  }

  lemma {:induction false} ChainPhase(cfg: Config, ts: Tables, t: string, names: seq<string>, rest: seq<string>)
    requires Selected(cfg, t) && NoDuplicates(names) && forall c | c in names :: PlainName(c)
    requires t in ts || names != []
    ensures RestoreLines(cfg, ts, t, ChainLines(names) + rest) ==
              RestoreLines(cfg, Overlay(ts, t, Openings(cfg, ts, t, names)), t, rest)
    decreases |names|
  {
    hide RestoreLine;
    hide RestoreLines;
    hide Selected;
    hide PlainName;
    hide MakeChainLine;
    hide Overlay;
    hide Emptied;
    if names == [] {
      assert ChainLines(names) + rest == rest;
      OverlayOwn(ts, t, map[]);
    } else {
      var c, names' := names[0], names[1..];
      assert c in names && forall d | d in names' :: d in names;
      var more := ChainLines(names') + rest;
      assert ChainLines(names) + rest == [MakeChainLine(c)] + more;
      ChainStep(cfg, ts, t, c);
      RestoreCons(cfg, ts, t, MakeChainLine(c), more);
      var first := map[c := Emptied(cfg, ts, t, c)];
      var ts' := Overlay(ts, t, first);
      OverlayAt(ts, t, first, c);
      ChainPhase(cfg, ts', t, names', rest);
      OverlayTwice(ts, t, first, Openings(cfg, ts', t, names'));
      OpeningsSplit(cfg, ts, t, names);
    }
  }

  lemma OpeningsSplit(cfg: Config, ts: Tables, t: string, names: seq<string>)
    requires names != [] && NoDuplicates(names)
    ensures var first := map[names[0] := Emptied(cfg, ts, t, names[0])];
            Openings(cfg, ts, t, names) == first + Openings(cfg, Overlay(ts, t, first), t, names[1..])
  {
    hide Overlay;
    hide RulesOf;
    hide Contains;
    var first := map[names[0] := Emptied(cfg, ts, t, names[0])];
    assert names == [names[0]] + names[1..];
    forall d | d in names[1..]
      ensures d != names[0] && Emptied(cfg, Overlay(ts, t, first), t, d) == Emptied(cfg, ts, t, d)
    {
      OverlayAt(ts, t, first, d);
    }
  }

  // ------------------------------------------------- the rule lines

  ghost predicate Ready(ts: Tables, t: string, c: string) { PlainName(c) && HasChain(ts, t, c) }

  lemma {:induction false} ChainRules(cfg: Config, ts: Tables, t: string, c: string, rules: seq<string>,
                                      rest: seq<string>)
    requires Selected(cfg, t) && Ready(ts, t, c)
    ensures var turn := RestoreLines(cfg, ts, t, RuleLines(c, rules) + rest);
            if Fill(ts[t][c], rules, cfg.isIP).Some?
            then turn == RestoreLines(cfg, Overlay(ts, t, map[c := Filled(ts[t][c], rules, cfg.isIP)]), t, rest)
            else Failed(turn)
    decreases |rules|
  {
    hide RestoreLine;
    hide RestoreLines;
    hide Selected;
    hide PlainName;
    hide Normalize;
    hide RuleLine;
    hide Overlay;
    hide Put;
    if rules == [] {
      assert RuleLines(c, rules) + rest == rest;
      OverlayOwn(ts, t, map[c := ts[t][c]]);
    } else {
      var r, rules' := rules[0], rules[1..];
      var more := RuleLines(c, rules') + rest;
      assert RuleLines(c, rules) + rest == [RuleLine(c, r)] + more;
      RuleStep(cfg, ts, t, c, r);
      RestoreCons(cfg, ts, t, RuleLine(c, r), more);
      if Normalize(r, cfg.isIP).Normal? {
        var one := Put(ts[t][c], Normalize(r, cfg.isIP).rule);
        var ts' := Overlay(ts, t, map[c := one]);
        OverlayAt(ts, t, map[c := one], c);
        ChainRules(cfg, ts', t, c, rules', rest);
        var after := Filled(one, rules', cfg.isIP);
        OverlayTwice(ts, t, map[c := one], map[c := after]);
        assert map[c := one] + map[c := after] == map[c := after];
      }
    }
  }

  function Refills(ts: Tables, t: string, names: seq<string>, saved: Chains, isIP: string -> bool): Chains
    requires forall c | c in names :: c in saved
  {
    map c | c in names :: Filled(RulesOf(ts, t, c), saved[c], isIP)
  }

  ghost predicate AllFill(ts: Tables, t: string, names: seq<string>, saved: Chains, isIP: string -> bool)
    requires forall c | c in names :: c in saved
  {
    forall c | c in names :: Fill(RulesOf(ts, t, c), saved[c], isIP).Some?
  }

  lemma {:induction false} RulePhase(cfg: Config, ts: Tables, t: string, names: seq<string>, saved: Chains,
                                     rest: seq<string>)
    requires Selected(cfg, t) && NoDuplicates(names) && t in ts
    requires forall c | c in names :: c in saved && Ready(ts, t, c)
    ensures var turn := RestoreLines(cfg, ts, t, AllRuleLines(names, saved) + rest);
            if AllFill(ts, t, names, saved, cfg.isIP)
            then turn == RestoreLines(cfg, Overlay(ts, t, Refills(ts, t, names, saved, cfg.isIP)), t, rest)
            else Failed(turn)
    decreases |names|
  {
    hide RestoreLine;
    hide RestoreLines;
    hide Selected;
    hide PlainName;
    hide RuleLines;
    hide Fill;
    hide Filled;
    hide Overlay;
    hide AllFill;
    if names == [] {
      assert AllRuleLines(names, saved) + rest == rest;
      OverlayOwn(ts, t, map[]);
      NoneToFill(ts, t, saved, cfg.isIP);
    } else {
      var c, names' := names[0], names[1..];
      assert c in names && forall d | d in names' :: d in names;
      var more := AllRuleLines(names', saved) + rest;
      assert AllRuleLines(names, saved) + rest == RuleLines(c, saved[c]) + more;
      ChainRules(cfg, ts, t, c, saved[c], more);
      var first := map[c := Filled(ts[t][c], saved[c], cfg.isIP)];
      var ts' := Overlay(ts, t, first);
      forall d | d in names' ensures Ready(ts', t, d) { OverlayAt(ts, t, first, d); }
      OverlayAt(ts, t, first, c);
      RefillsSplit(ts, t, names, saved, cfg.isIP);
      if Fill(ts[t][c], saved[c], cfg.isIP).Some? {
        RulePhase(cfg, ts', t, names', saved, rest);
        OverlayTwice(ts, t, first, Refills(ts', t, names', saved, cfg.isIP));
      }
    }
  }

  lemma NoneToFill(ts: Tables, t: string, saved: Chains, isIP: string -> bool)
    ensures AllFill(ts, t, [], saved, isIP)
  {
  }

  lemma RefillsSplit(ts: Tables, t: string, names: seq<string>, saved: Chains, isIP: string -> bool)
    requires names != [] && NoDuplicates(names) && (forall c | c in names :: c in saved) && HasChain(ts, t, names[0])
    ensures forall c | c in names[1..] :: c in saved
    ensures var first := map[names[0] := Filled(ts[t][names[0]], saved[names[0]], isIP)];
            var ts' := Overlay(ts, t, first);
            && Refills(ts, t, names, saved, isIP) == first + Refills(ts', t, names[1..], saved, isIP)
            && (AllFill(ts, t, names, saved, isIP) <==>
                 Fill(ts[t][names[0]], saved[names[0]], isIP).Some? && AllFill(ts', t, names[1..], saved, isIP))
  {
    hide Fill;
    hide Filled;
    hide Overlay;
    hide RulesOf;
    var first := map[names[0] := Filled(ts[t][names[0]], saved[names[0]], isIP)];
    assert names == [names[0]] + names[1..];
    forall d | d in names[1..]
      ensures d != names[0] && d in names && RulesOf(Overlay(ts, t, first), t, d) == RulesOf(ts, t, d)
    {
      OverlayAt(ts, t, first, d);
    }
    assert RulesOf(ts, t, names[0]) == ts[t][names[0]] by { RulesThere(ts, t, names[0]); }
  }

  // ------------------------------------------------- a whole saved table

  ghost predicate PlainNames(saved: Chains) { forall c | c in saved :: PlainName(c) }

  function Restored(cfg: Config, g: Tables, t: string, saved: Chains): Chains {
    map c | c in saved :: Filled(Emptied(cfg, g, t, c), saved[c], cfg.isIP)
  }

  /** No saved rule is refused. */
  ghost predicate Accepted(cfg: Config, g: Tables, t: string, saved: Chains) {
    forall c | c in saved :: Fill(Emptied(cfg, g, t, c), saved[c], cfg.isIP).Some?
  }

  /**
   Restoring a saved table into any tables `g`: other tables and other chains are left alone, and every
   saved chain ends up as what its chain line left there, followed by the normal forms of the saved rules that
   were missing. What follows in the buffer is read next, unless only this table was asked for. If the
   normaliser refuses a saved rule, restoring fails there.
   */
  lemma RestoreSavedThen(cfg: Config, g: Tables, before: string, t: string, names: seq<string>, saved: Chains,
                         rest: seq<string>)
    requires Selected(cfg, t) && Lists(names, saved.Keys) && PlainNames(saved)
    requires t in g || saved != map[]
    ensures var out := Overlay(g, t, Restored(cfg, g, t, saved));
            var turn := RestoreLines(cfg, g, before, SaveLines(t, names, saved) + rest);
            if Accepted(cfg, g, t, saved)
            then turn == if cfg.only == t then Stop(out) else RestoreLines(cfg, out, "", rest)
            else Failed(turn)
  {
    hide RestoreLine;
    hide RestoreLines;
    hide Fill;
    hide Filled;
    hide Emptied;
    hide Overlay;
    hide Selected;
    hide NoDuplicates;
    hide PlainName;
    assert names == [] ==> saved == map[] by {
      assert forall c | c in saved :: c in names;
    }
    assert forall c | c in names :: c in saved && PlainName(c);
    var last := ["COMMIT"] + rest;
    var rules := AllRuleLines(names, saved) + last;
    assert SaveLines(t, names, saved) + rest == ["*" + t] + (ChainLines(names) + rules);
    FirstLine(cfg, g, before, t);
    RestoreCons(cfg, g, before, "*" + t, ChainLines(names) + rules);
    ChainPhase(cfg, g, t, names, rules);
    var openings := Openings(cfg, g, t, names);
    var started := Overlay(g, t, openings);
    forall c | c in names
      ensures Ready(started, t, c) && RulesOf(started, t, c) == Emptied(cfg, g, t, c)
    {
      OverlayAt(g, t, openings, c);
    }
    OverlayAt(g, t, openings, "");
    RulePhase(cfg, started, t, names, saved, last);
    var filled := Refills(started, t, names, saved, cfg.isIP);
    OverlayTwice(g, t, openings, filled);
    assert openings + filled == Restored(cfg, g, t, saved);
    assert AllFill(started, t, names, saved, cfg.isIP) <==> Accepted(cfg, g, t, saved);
    CommitLine(cfg, Overlay(started, t, filled), t, rest);
  }

  lemma RestoreSaved(cfg: Config, g: Tables, t: string, names: seq<string>, saved: Chains)
    requires Selected(cfg, t) && Lists(names, saved.Keys) && PlainNames(saved)
    requires t in g || saved != map[]
    ensures var turn := RestoreLines(cfg, g, "", SaveLines(t, names, saved));
            if Accepted(cfg, g, t, saved) then turn == Stop(Overlay(g, t, Restored(cfg, g, t, saved))) else Failed(turn)
  {
    hide RestoreLine;
    hide SaveLines;
    hide Overlay;
    hide Restored;
    hide Accepted;
    RestoreSavedThen(cfg, g, "", t, names, saved, []);
    assert SaveLines(t, names, saved) + [] == SaveLines(t, names, saved);
  }

  lemma FirstLine(cfg: Config, g: Tables, before: string, t: string)
    ensures RestoreLine(cfg, g, before, "*" + t) == Continue(g, t)
  {
    var line := "*" + t;
    assert line[0] == '*' && line[1..] == t;
    assert "#"[0] == '#' && ":"[0] == ':' && "-A"[0] == '-' && "-I"[0] == '-' && "-X"[0] == '-' && "COMMIT"[0] == 'C';
  }

  lemma CommitLine(cfg: Config, ts: Tables, t: string, rest: seq<string>)
    requires Selected(cfg, t)
    ensures RestoreLines(cfg, ts, t, ["COMMIT"] + rest) ==
              if cfg.only == t then Stop(ts) else RestoreLines(cfg, ts, "", rest)
  {
    RestoreLast(cfg, ts, t);
    hide RestoreLine;
    hide RestoreLines;
    RestoreCons(cfg, ts, t, "COMMIT", rest);
  }

  lemma RestoreLast(cfg: Config, ts: Tables, t: string)
    requires Selected(cfg, t)
    ensures RestoreLine(cfg, ts, t, "COMMIT") == if cfg.only == t then Stop(ts) else Continue(ts, "")
  {
    hide ChainTurn;
    hide RuleTurn;
    hide Split;
    assert "COMMIT"[0] == 'C';
    assert "#"[0] == '#' && ":"[0] == ':' && "-A"[0] == '-' && "-I"[0] == '-' && "-X"[0] == '-' && "*"[0] == '*';
  }

  // ------------------------------------------------- exactly when it restores

  lemma {:induction false} RefillPrefix(have: seq<string>, rules: seq<string>)
    ensures have <= Refill(have, rules)
    decreases |rules|
  {
    if rules != [] { RefillPrefix(Put(have, rules[0]), rules[1..]); }
  }

  lemma {:induction false} RefillSkips(have: seq<string>, seen: seq<string>, rules: seq<string>)
    requires forall r | r in seen :: r in have
    ensures Refill(have, seen + rules) == Refill(have, rules)
    decreases |seen|
  {
    if seen == [] {
      assert seen + rules == rules;
    } else {
      assert seen[0] in have && forall r | r in seen[1..] :: r in have;
      assert (seen + rules)[1..] == seen[1..] + rules;
      RefillSkips(have, seen[1..], rules);
    }
  }

  lemma {:induction false} RefillAppends(have: seq<string>, rules: seq<string>)
    requires NoDuplicates(have + rules)
    ensures Refill(have, rules) == have + rules
    decreases |rules|
  {
    if rules == [] {
      assert have + rules == have;
    } else {
      assert (have + rules)[|have|] == rules[0];
      assert forall i | 0 <= i < |have| :: have[i] == (have + rules)[i] != rules[0];
      assert have + [rules[0]] + rules[1..] == have + rules;
      RefillAppends(have + [rules[0]], rules[1..]);
    }
  }

  /** A chain is filled up to the saved rules exactly when it starts as a prefix of them. */
  lemma RefillExact(have: seq<string>, rules: seq<string>)
    requires NoDuplicates(rules)
    ensures Refill(have, rules) == rules <==> have <= rules
  {
    RefillPrefix(have, rules);
    if have <= rules {
      var more := rules[|have|..];
      assert rules == have + more;
      RefillSkips(have, have, more);
      RefillAppends(have, more);
    }
  }

  // ------------------------------------------------- rules that are no normal forms

  lemma {:induction false} StoredFill(have: seq<string>, rules: seq<string>, isIP: string -> bool)
    requires forall r | r in rules :: Stored(r, isIP)
    ensures Fill(have, rules, isIP) == Some(Refill(have, rules))
    decreases |rules|
  {
    hide Normalize;
    hide Put;
    if rules != [] {
      assert rules[0] in rules && forall r | r in rules[1..] :: r in rules;
      StoredFill(Put(have, rules[0]), rules[1..], isIP);
    }
  }

  lemma {:induction false} FillGrows(have: seq<string>, rules: seq<string>, isIP: string -> bool)
    ensures var r := Fill(have, rules, isIP); r.Some? ==> have <= r.value && |r.value| <= |have| + |rules|
    decreases |rules|
  {
    hide Normalize;
    if rules != [] && Normalize(rules[0], isIP).Normal? {
      FillGrows(Put(have, Normalize(rules[0], isIP).rule), rules[1..], isIP);
    }
  }

  /** Distinct rules are added as they stand exactly when each is its own normal form. */
  lemma {:induction false} FillAppends(have: seq<string>, rules: seq<string>, isIP: string -> bool)
    requires NoDuplicates(have + rules)
    ensures Fill(have, rules, isIP) == Some(have + rules) <==> forall r | r in rules :: Normalize(r, isIP) == Normal(r)
    decreases |rules|
  {
    hide Normalize;
    if rules == [] {
      assert have + rules == have;
    } else {
      var r, all := rules[0], have + rules;
      assert all[|have|] == r && rules == [r] + rules[1..];
      assert forall i | 0 <= i < |have| :: have[i] == all[i] != r;
      var n := Normalize(r, isIP);
      if n == Normal(r) {
        assert have + [r] + rules[1..] == all;
        FillAppends(have + [r], rules[1..], isIP);
      } else if n.Normal? {
        FillGrows(Put(have, n.rule), rules[1..], isIP);
        assert n.rule !in have ==> Put(have, n.rule)[|have|] == n.rule;
      }
    }
  }

  /** Rules leave a chain as it is exactly when it holds all their normal forms. */
  lemma {:induction false} FillSame(have: seq<string>, rules: seq<string>, isIP: string -> bool)
    ensures Fill(have, rules, isIP) == Some(have) <==>
              forall r | r in rules :: Normalize(r, isIP).Normal? && Normalize(r, isIP).rule in have
    decreases |rules|
  {
    hide Normalize;
    if rules != [] {
      var n := Normalize(rules[0], isIP);
      assert rules == [rules[0]] + rules[1..];
      if n.Normal? && n.rule in have {
        FillSame(have, rules[1..], isIP);
      } else if n.Normal? {
        FillGrows(have + [n.rule], rules[1..], isIP);
      }
    }
  }

  /** A saved table is restored exactly when the saved rules fill every chain up to what was saved. */
  lemma RestoresWhenFilled(cfg: Config, g: Tables, t: string, names: seq<string>, saved: Chains)
    requires Selected(cfg, t) && Lists(names, saved.Keys) && PlainNames(saved)
    requires t in g || saved != map[]
    ensures RestoreLines(cfg, g, "", SaveLines(t, names, saved)) == Stop(Overlay(g, t, saved))
            <==> forall c | c in saved :: Fill(Emptied(cfg, g, t, c), saved[c], cfg.isIP) == Some(saved[c])
  {
    hide RestoreLines;
    hide Fill;
    hide Emptied;
    hide Overlay;
    hide SaveLines;
    hide PlainNames;
    RestoreSaved(cfg, g, t, names, saved);
    hide Selected;
    hide Lists;
    var m := Restored(cfg, g, t, saved);
    SameChains(m, saved);
    OverlayInjective(g, t, m, saved);
  }

  /** Chains of distinct rules that are their own normal forms, as the operations of the fake leave them. */
  ghost predicate Savable(saved: Chains, isIP: string -> bool) {
    forall c | c in saved :: TidyChain(c, saved[c], isIP) && NoDuplicates(saved[c])
  }

  /** Such a table is restored exactly when each chain not emptied on the way holds a prefix of what was saved. */
  lemma RestoresExactly(cfg: Config, g: Tables, t: string, names: seq<string>, saved: Chains)
    requires Selected(cfg, t) && Lists(names, saved.Keys) && Savable(saved, cfg.isIP)
    requires t in g || saved != map[]
    ensures RestoreLines(cfg, g, "", SaveLines(t, names, saved)) == Stop(Overlay(g, t, saved))
            <==> forall c | c in saved :: cfg.flush || cfg.Empties(t, c) || RulesOf(g, t, c) <= saved[c]
  {
    SavablePlain(saved, cfg.isIP);
    forall c | c in saved
      ensures Fill(Emptied(cfg, g, t, c), saved[c], cfg.isIP) == Some(saved[c])
              <==> cfg.flush || cfg.Empties(t, c) || RulesOf(g, t, c) <= saved[c]
    {
      SavableFill(Emptied(cfg, g, t, c), c, saved, cfg.isIP);
    }
    hide *;
    RestoresWhenFilled(cfg, g, t, names, saved);
  }

  lemma SavablePlain(saved: Chains, isIP: string -> bool)
    requires Savable(saved, isIP)
    ensures PlainNames(saved)
  {
    hide Stored;
    hide NoDuplicates;
  }

  lemma SavableFill(have: seq<string>, c: string, saved: Chains, isIP: string -> bool)
    requires Savable(saved, isIP) && c in saved
    ensures Fill(have, saved[c], isIP) == Some(saved[c]) <==> have <= saved[c]
  {
    hide Stored;
    StoredFill(have, saved[c], isIP);
    RefillExact(have, saved[c]);
  }

  lemma SameChains(a: Chains, b: Chains)
    requires a.Keys == b.Keys
    ensures a == b <==> forall c | c in b :: a[c] == b[c]
  {
    if forall c | c in b :: a[c] == b[c] {
      assert forall c | c in a :: c in b.Keys;
    }
  }

  lemma OverlayInjective(g: Tables, t: string, a: Chains, b: Chains)
    requires a.Keys == b.Keys
    ensures Overlay(g, t, a) == Overlay(g, t, b) <==> a == b
  {
    if Overlay(g, t, a) == Overlay(g, t, b) {
      assert ChainsOf(g, t) + a == Overlay(g, t, a)[t] == ChainsOf(g, t) + b;
      assert forall c | c in a :: a[c] == (ChainsOf(g, t) + a)[c] == (ChainsOf(g, t) + b)[c] == b[c];
    }
  }

  // ------------------------------------------------- restoring one's own text

  /** Lines of a table that is not being restored change nothing. */
  lemma {:induction false} Ignored(cfg: Config, ts: Tables, current: string, lines: seq<string>, rest: seq<string>)
    requires !Selected(cfg, current)
    requires forall l | l in lines :: !("*" <= l)
    ensures RestoreLines(cfg, ts, current, lines + rest) == RestoreLines(cfg, ts, current, rest)
    decreases |lines|
  {
    hide RestoreLines;
    if lines == [] {
      assert lines + rest == rest;
    } else {
      var l := lines[0];
      assert l in lines && forall k | k in lines[1..] :: k in lines;
      assert lines + rest == [l] + (lines[1..] + rest);
      RestoreCons(cfg, ts, current, l, lines[1..] + rest);
      Ignored(cfg, ts, current, lines[1..], rest);
    }
  }

  lemma BodyPlain(names: seq<string>, saved: Chains)
    requires forall c | c in names :: c in saved
    ensures forall l | l in ChainLines(names) + (AllRuleLines(names, saved) + ["COMMIT"]) :: !("*" <= l)
  {
    BodyUnstarred(names, saved);
    assert "*"[0] == '*';
  }

  /** Putting back what is there. */
  lemma OwnRestored(cfg: Config, ts: Tables, t: string)
    requires t in ts && Savable(ts[t], cfg.isIP)
    ensures Overlay(ts, t, Restored(cfg, ts, t, ts[t])) == ts && Accepted(cfg, ts, t, ts[t])
  {
    hide Fill;
    hide Overlay;
    hide Savable;
    hide Contains;
    forall c | c in ts[t] ensures Fill(Emptied(cfg, ts, t, c), ts[t][c], cfg.isIP) == Some(ts[t][c]) {
      SavableFill(Emptied(cfg, ts, t, c), c, ts[t], cfg.isIP);
    }
    OverlayOwn(ts, t, Restored(cfg, ts, t, ts[t]));
  }

  /** One's own table passes through restore without effect, wherever it stands in the buffer. */
  lemma OwnTable(cfg: Config, ts: Tables, before: string, t: string, rest: seq<string>) returns (current: string)
    requires t in ts && Savable(ts[t], cfg.isIP)
    ensures var lines := SaveLines(t, Names(ts[t]), ts[t]) + rest;
            || RestoreLines(cfg, ts, before, lines) == Stop(ts)
            || RestoreLines(cfg, ts, before, lines) == RestoreLines(cfg, ts, current, rest)
  {
    current := "";
    if Selected(cfg, t) {
      SavablePlain(ts[t], cfg.isIP);
      hide *;
      RestoreSavedThen(cfg, ts, before, t, Names(ts[t]), ts[t], rest);
      OwnRestored(cfg, ts, t);
    } else {
      current := t;
      hide *;
      PassedOver(cfg, ts, before, t, Names(ts[t]), ts[t], rest);
    }
  }

  lemma PassedOver(cfg: Config, ts: Tables, before: string, t: string, names: seq<string>, saved: Chains,
                   rest: seq<string>)
    requires !Selected(cfg, t) && forall c | c in names :: c in saved
    ensures RestoreLines(cfg, ts, before, SaveLines(t, names, saved) + rest) == RestoreLines(cfg, ts, t, rest)
  {
    hide RestoreLine;
    hide RestoreLines;
    hide ChainLines;
    hide AllRuleLines;
    hide Selected;
    var body := ChainLines(names) + (AllRuleLines(names, saved) + ["COMMIT"]);
    assert SaveLines(t, names, saved) + rest == ["*" + t] + (body + rest);
    FirstLine(cfg, ts, before, t);
    RestoreCons(cfg, ts, before, "*" + t, body + rest);
    BodyPlain(names, saved);
    Ignored(cfg, ts, t, body, rest);
  }

  lemma {:induction false} OwnTables(cfg: Config, ts: Tables, before: string, tabs: seq<string>)
    requires forall t | t in tabs :: t in ts && Savable(ts[t], cfg.isIP)
    ensures RestoreLines(cfg, ts, before, SaveAllLines(tabs, ts)) == Stop(ts)
    decreases |tabs|
  {
    hide RestoreLine;
    hide SaveLines;
    hide Savable;
    hide Names;
    if tabs != [] {
      assert tabs[0] in tabs && forall t | t in tabs[1..] :: t in tabs;
      var current := OwnTable(cfg, ts, before, tabs[0], SaveAllLines(tabs[1..], ts));
      hide RestoreLines;
      OwnTables(cfg, ts, current, tabs[1..]);
    }
  }

  /**
   Save/restore identity: restoring the text of any of its tables, saved one after another into one buffer,
   into one of them, into another table or into all of them, flushing or not, leaves tidy tables as they were.
   */
  lemma RestoreOwnSave(cfg: Config, ts: Tables, tabs: seq<string>)
    requires Distinct(ts) && Tidy(ts, cfg.isIP) && forall t | t in tabs :: t in ts
    ensures RestoreLines(cfg, ts, "", LinesOf(SaveAllText(tabs, ts))) == Stop(ts)
  {
    hide RestoreLines;
    hide Savable;
    hide OneLine;
    hide SaveAllText;
    hide SaveAllLines;
    hide LinesOf;
    hide Distinct;
    hide Tidy;
    forall t | t in tabs ensures Savable(ts[t], cfg.isIP) && OneLine(ts[t]) && '\n' !in t {
      OwnIsSavable(ts, t, cfg.isIP);
    }
    SavedAllLines(tabs, ts);
    OwnTables(cfg, ts, "", tabs);
  }

  /** What restoring asks of a rule of one's own chain `c`, if that is to change nothing. */
  ghost predicate Stays(cfg: Config, t: string, c: string, rules: seq<string>, r: string) {
    var n := Normalize(r, cfg.isIP);
    n.Normal? && (if cfg.flush || cfg.Empties(t, c) then n.rule == r else n.rule in rules)
  }

  /**
   Tidy or not, as long as names and rules fit in their lines: restoring one's own table changes nothing exactly
   when every rule is its own normal form, or, in a chain that is not emptied on the way, has its normal form in
   the chain.
   */
  lemma RestoreOwnExactly(cfg: Config, ts: Tables, t: string)
    requires Distinct(ts) && t in ts && Selected(cfg, t) && PlainNames(ts[t]) && OneLine(ts[t]) && '\n' !in t
    ensures RestoreLines(cfg, ts, "", LinesOf(SaveText(t, ts[t]))) == Stop(ts) <==>
              forall c | c in ts[t] :: forall r | r in ts[t][c] :: Stays(cfg, t, c, ts[t][c], r)
  {
    var saved, names := ts[t], Names(ts[t]);
    forall c | c in saved
      ensures Fill(Emptied(cfg, ts, t, c), saved[c], cfg.isIP) == Some(saved[c])
              <==> forall r | r in saved[c] :: Stays(cfg, t, c, saved[c], r)
    {
      OwnFill(cfg, ts, t, c);
    }
    OneSavedLines(t, saved);
    OverlayOwn(ts, t, saved);
    hide *;
    RestoresWhenFilled(cfg, ts, t, names, saved);
  }

  lemma OwnFill(cfg: Config, ts: Tables, t: string, c: string)
    requires Distinct(ts) && HasChain(ts, t, c)
    ensures Fill(Emptied(cfg, ts, t, c), ts[t][c], cfg.isIP) == Some(ts[t][c])
            <==> forall r | r in ts[t][c] :: Stays(cfg, t, c, ts[t][c], r)
  {
    hide Normalize;
    hide Fill;
    hide Contains;
    var rules := ts[t][c];
    assert [] + rules == rules;
    FillAppends([], rules, cfg.isIP);
    FillSame(rules, rules, cfg.isIP);
  }

  lemma OneSavedLines(t: string, chains: Chains)
    requires OneLine(chains) && '\n' !in t
    ensures LinesOf(SaveText(t, chains)) == SaveLines(t, Names(chains), chains)
  {
    hide OneLine;
    hide LinesOf;
    hide Names;
    SaveLinesFree(Names(chains), chains);
    hide ChainLines;
    hide AllRuleLines;
    LinesUnlines(SaveLines(t, Names(chains), chains));
  }

  lemma OwnIsSavable(ts: Tables, t: string, isIP: string -> bool)
    requires Distinct(ts) && Tidy(ts, isIP) && t in ts
    ensures Savable(ts[t], isIP) && OneLine(ts[t]) && '\n' !in t
  {
    hide Normalize;
    forall c | c in ts[t]
      ensures TidyChain(c, ts[t][c], isIP) && NoDuplicates(ts[t][c])
    {
      assert HasChain(ts, t, c);
    }
  }
}

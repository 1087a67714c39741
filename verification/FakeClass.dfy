/**
 `fakeIPTables` (`utils/iptables/testing/fake_iptables.go`): the operations in place, each proved against
 the functions of module `FakeIptables`.
 */
module FakeClass {
  import opened Strings
  import opened Lines
  import opened Rules
  import opened SaveFormat
  import opened FakeIptables

  /** `builtinChains`. */
  function Builtin(): map<string, set<string>> {
    map[
      "filter" := {"INPUT", "FORWARD", "OUTPUT"},
      "nat" := {"PREROUTING", "INPUT", "OUTPUT", "POSTROUTING"},
      "mangle" := {"PREROUTING", "INPUT", "FORWARD", "OUTPUT", "POSTROUTING"}
    ]
  }

  /** The tables of a new fake: every built-in chain, empty. */
  function NewTables(): Tables { map t | t in Builtin() :: EmptyChains(Builtin()[t]) }

  /** They are these twelve and no others. */
  lemma NewTablesAre(t: string, c: string)
    ensures t in NewTables() && c in NewTables()[t] <==>
              || (t == "filter" && (c == "INPUT" || c == "FORWARD" || c == "OUTPUT"))
              || (t == "nat" && (c == "PREROUTING" || c == "INPUT" || c == "OUTPUT" || c == "POSTROUTING"))
              || (t == "mangle" &&
                  (c == "PREROUTING" || c == "INPUT" || c == "FORWARD" || c == "OUTPUT" || c == "POSTROUTING"))
    ensures t in NewTables() && c in NewTables()[t] ==> NewTables()[t][c] == []
  {
  }

  function EmptyChains(names: set<string>): Chains { map c | c in names :: [] }

  function FirstTables(names: seq<string>): Tables { map t | t in names && t in Builtin() :: EmptyChains(Builtin()[t]) }

  function ListedChains(list: seq<string>): Chains { map c | c in list :: [] }

  /** Line 215: an argument with a space in it is quoted. */
  function Quote(arg: string): string { if ' ' in arg then "\"" + arg + "\"" else arg }

  function QuoteAll(args: seq<string>): seq<string> { seq(|args|, i requires 0 <= i < |args| => Quote(args[i])) }

  /** `strings.Join(args, " ")`. */
  function Spaced(args: seq<string>): string { if args == [] then "" else Join(args, ' ') }

  function RuleText(args: seq<string>): string { Spaced(QuoteAll(args)) }

  // ------------------------------------------------- DeleteRule

  function Dropped(rules: seq<string>, rule: string): seq<string> {
    if rules == [] then []
    else if rules[0] == rule then rules[1..]
    else [rules[0]] + Dropped(rules[1..], rule)
  }

  function WithoutRule(ts: Tables, t: string, c: string, rule: string): Tables {
    if HasChain(ts, t, c) then SetChain(ts, t, c, Dropped(ts[t][c], rule)) else ts
  }

  lemma {:induction false} DroppedAt(rules: seq<string>, rule: string, i: nat)
    requires i <= |rules| && rule !in rules[..i] && (i < |rules| ==> rules[i] == rule)
    ensures Dropped(rules, rule) == if i < |rules| then rules[..i] + rules[i + 1..] else rules
  {
    if i > 0 {
      assert rules[0] in rules[..i];
      assert rules[1..][..i - 1] == rules[..i][1..];
      DroppedAt(rules[1..], rule, i - 1);
    }
  }

  lemma {:induction false} DroppedKeeps(rules: seq<string>, rule: string)
    requires NoDuplicates(rules)
    ensures NoDuplicates(Dropped(rules, rule)) && forall r :: r in Dropped(rules, rule) <==> r in rules && r != rule
  {
    if rules != [] {
      var rest := Dropped(rules[1..], rule);
      DroppedKeeps(rules[1..], rule);
      assert forall r | r in rules[1..] :: r != rules[0];
      assert rules == [rules[0]] + rules[1..];
      assert forall k | 0 <= k < |rest| :: rest[k] in rest;
    }
  }

  lemma WithoutRuleKeeps(ts: Tables, t: string, c: string, rule: string, isIP: string -> bool)
    requires Distinct(ts)
    ensures Distinct(WithoutRule(ts, t, c, rule))
    ensures Tidy(ts, isIP) ==> Tidy(WithoutRule(ts, t, c, rule), isIP)
  {
    hide Stored;
    hide Dropped;
    if HasChain(ts, t, c) {
      DroppedKeeps(ts[t][c], rule);
      SetChainKeeps(ts, t, c, Dropped(ts[t][c], rule), isIP);
    }
  }

  lemma WithoutRuleChanges(ts: Tables, t: string, c: string, rule: string)
    ensures !(t in ts && c in ts[t] && rule in ts[t][c]) ==> WithoutRule(ts, t, c, rule) == ts
    ensures t in ts && c in ts[t] ==>
              forall i | 0 <= i < |ts[t][c]| && ts[t][c][i] == rule && rule !in ts[t][c][..i] ::
                Changed(ts, WithoutRule(ts, t, c, rule), t, c, Some(ts[t][c][..i] + ts[t][c][i + 1..]))
  {
    hide Dropped;
    hide Changed;
    if t in ts && c in ts[t] {
      var rules := ts[t][c];
      SetChainChanges(ts, t, c, Dropped(rules, rule));
      if rule !in rules {
        assert rules[..|rules|] == rules;
        DroppedAt(rules, rule, |rules|);
        assert ts[t][c := rules] == ts[t];
      }
      forall i | 0 <= i < |rules| && rules[i] == rule && rule !in rules[..i]
        ensures Dropped(rules, rule) == rules[..i] + rules[i + 1..]
      {
        DroppedAt(rules, rule, i);
      }
    }
  }

  /** Asking for the same rule again finds it, whatever the position, and changes nothing. */
  lemma EnsureRuleIdempotent(ts: Tables, p: Position, q: Position, t: string, c: string, rule: string,
                             isIP: string -> bool)
    requires var done := WithRule(ts, p, t, c, rule, isIP).1; done.Added? || done.Existed?
    ensures var after := WithRule(ts, p, t, c, rule, isIP).0;
            WithRule(after, q, t, c, rule, isIP) == (after, Existed)
  {
    hide Normalize;
  }

  /**
   `DeleteRule` looks for its arguments joined as they stand, while `EnsureRule` stores them quoted and
   normalised: it takes back a rule just added exactly when the two texts are the same.
   */
  lemma DeleteUndoesEnsure(ts: Tables, p: Position, t: string, c: string, args: seq<string>, isIP: string -> bool)
    requires Distinct(ts) && WithRule(ts, p, t, c, RuleText(args), isIP).1.Added?
    ensures WithoutRule(WithRule(ts, p, t, c, RuleText(args), isIP).0, t, c, Spaced(args)) == WithChain(ts, t, c)
            <==> Normalize(RuleText(args), isIP) == Normal(Spaced(args))
  {
    hide Normalize;
    hide RuleText;
    hide Spaced;
    var made := WithChain(ts, t, c);
    var had, n, text := RulesOf(made, t, c), Normalize(RuleText(args), isIP).rule, Spaced(args);
    WithChainKeeps(ts, t, c, isIP);
    RulesOfKept(made, t, c, isIP);
    var has := if p.Prepend? then [n] + had else had + [n];
    var after := SetChain(made, t, c, has);
    assert WithRule(ts, p, t, c, RuleText(args), isIP).0 == after;
    DropNew(had, p, n, text);
    SetTwice(made, t, c, has, Dropped(has, text));
  }

  lemma SetTwice(ts: Tables, t: string, c: string, a: seq<string>, b: seq<string>)
    requires HasChain(ts, t, c)
    ensures SetChain(SetChain(ts, t, c, a), t, c, b) == SetChain(ts, t, c, b)
    ensures SetChain(ts, t, c, b) == ts <==> b == ts[t][c]
  {
    assert ts[t][c := a][c := b] == ts[t][c := b];
    if b == ts[t][c] { assert ts[t][c := b] == ts[t]; }
  }

  lemma DropNew(rules: seq<string>, p: Position, n: string, text: string)
    requires n !in rules && NoDuplicates(rules)
    ensures Dropped(if p.Prepend? then [n] + rules else rules + [n], text) == rules <==> n == text
  {
    hide Dropped;
    var all := if p.Prepend? then [n] + rules else rules + [n];
    if n == text {
      var i := if p.Prepend? then 0 else |rules|;
      assert all[..i] == if p.Prepend? then [] else rules;
      DroppedAt(all, text, i);
      assert all[..i] + all[i + 1..] == rules;
    } else {
      DroppedKeeps(all, text);
      assert n in all;
    }
  }

  // ------------------------------------------------- writing a table

  /** `saveChain`. */
  method SaveChain(c: string, rules: seq<string>) returns (text: string)
    ensures text == Unlines(RuleLines(c, rules))
  {
    text := "";
    for i := 0 to |rules|
      invariant text + Unlines(RuleLines(c, rules[i..])) == Unlines(RuleLines(c, rules))
    {
      var rest := rules[i..];
      assert rest[0] == rules[i] && rest[1..] == rules[i + 1..];
      UnlinesCons(RuleLine(c, rules[i]), RuleLines(c, rest[1..]));
      text := text + (RuleLine(c, rules[i]) + "\n");
    }
    assert rules[|rules|..] == [];
  }

  lemma SaveTextIs(t: string, chains: Chains)
    ensures SaveText(t, chains) ==
              "*" + t + "\n" + Unlines(ChainLines(Names(chains))) + Unlines(AllRuleLines(Names(chains), chains))
              + "COMMIT\n"
  {
    hide Names;
    hide ChainLines;
    hide AllRuleLines;
    hide Unlines;
    var names := Names(chains);
    var rules := AllRuleLines(names, chains) + ["COMMIT"];
    UnlinesCons("*" + t, ChainLines(names) + rules);
    UnlinesAppend(ChainLines(names), rules);
    UnlinesAppend(AllRuleLines(names, chains), ["COMMIT"]);
    UnlinesCons("COMMIT", []);
    UnlinesNone();
    assert ["COMMIT"] + [] == ["COMMIT"];
    assert "COMMIT" + "\n" + "" == "COMMIT\n";
  }

  /** Lines 254-265 of `SaveInto`: the chain lines, and the rules gathered meanwhile. */
  method SaveChains(names: seq<string>, chains: Chains) returns (heads: string, rules: string)
    requires forall c | c in names :: c in chains
    ensures heads == Unlines(ChainLines(names)) && rules == Unlines(AllRuleLines(names, chains))
  {
    hide RuleLines;
    hide MakeChainLine;
    hide Unlines;
    heads, rules := "", "";
    assert names[0..] == names;
    for i := 0 to |names|
      invariant heads + Unlines(ChainLines(names[i..])) == Unlines(ChainLines(names))
      invariant rules + Unlines(AllRuleLines(names[i..], chains)) == Unlines(AllRuleLines(names, chains))
    {
      var name := names[i];
      assert name in names;
      var rest := names[i..];
      assert rest[0] == name && rest[1..] == names[i + 1..];
      UnlinesCons(MakeChainLine(name), ChainLines(rest[1..]));
      UnlinesAppend(RuleLines(name, chains[name]), AllRuleLines(rest[1..], chains));
      heads := heads + (MakeChainLine(name) + "\n");
      var text := SaveChain(name, chains[name]);
      rules := rules + text;
    }
    assert names[|names|..] == [];
    UnlinesNone();
  }

  lemma UnlinesNone()
    ensures Unlines([]) == ""
  {
  }

  lemma Gather(a: string, b: string, c: string, d: string, e: string)
    ensures a + b + c + d + e == a + (b + c + d + e)
  {
  }

  // ------------------------------------------------- the class

  lemma BuiltinPlain(t: string)
    requires t in Builtin()
    ensures '\n' !in t && Builtin()[t] != {} && forall c | c in Builtin()[t] :: PlainName(c)
  {
    assert "INPUT" in Builtin()[t];
  }

  lemma NothingYet(isIP: string -> bool)
    ensures Distinct(map[]) && Tidy(map[], isIP) && FirstTables([]) == map[]
  {
  }

  lemma NextTable(names: seq<string>, i: nat, list: seq<string>)
    requires NoDuplicates(names) && i < |names| && names[i] in Builtin() && Builtin()[names[i]] != {}
    requires forall c :: c in list <==> c in Builtin()[names[i]]
    ensures names[i] !in FirstTables(names[..i]) && list != []
    ensures FirstTables(names[..i + 1]) == FirstTables(names[..i])[names[i] := ListedChains(list)]
  {
    hide Builtin;
    var c :| c in Builtin()[names[i]];
    assert c in list;
    assert ListedChains(list) == EmptyChains(Builtin()[names[i]]);
    assert names[..i + 1] == names[..i] + [names[i]];
  }

  lemma AllTables(names: seq<string>)
    requires Lists(names, Builtin().Keys)
    ensures FirstTables(names[..|names|]) == NewTables()
  {
    hide Builtin;
    assert names[..|names|] == names;
  }

  lemma NextChain(before: Tables, t: string, list: seq<string>, j: nat)
    requires j < |list| && t !in before
    ensures WithChain(if j == 0 then before else before[t := ListedChains(list[..j])], t, list[j]) ==
              before[t := ListedChains(list[..j + 1])]
  {
    assert list[..j + 1] == list[..j] + [list[j]];
    var now := ListedChains(list[..j]);
    assert ListedChains(list[..j + 1]) == now[list[j] := []];
    if list[j] in now { assert now[list[j] := []] == now; }
  }

  lemma Untouched(ts: Tables, t: string, c: string)
    ensures !HasChain(ts, t, c) ==> WithoutChain(ts, t, c) == ts
  {
  }

  lemma HasMade(ts: Tables, t: string, c: string)
    ensures HasChain(WithChain(ts, t, c), t, c)
  {
  }

  lemma RestoreKeeps(cfg: Config, ts: Tables, data: string)
    requires Distinct(ts)
    ensures Distinct(RestoreLines(cfg, ts, "", LinesOf(data)).ts)
    ensures LooksRight(cfg.isIP) && (forall l | l in LinesOf(data) :: SpacesOnly(l)) && Tidy(ts, cfg.isIP) ==>
              Tidy(RestoreLines(cfg, ts, "", LinesOf(data)).ts, cfg.isIP)
  {
    hide Distinct;
    hide Tidy;
    hide RestoreLines;
    hide LooksRight;
    hide SpacesOnly;
    hide LinesOf;
    RestoreLinesKeeps(cfg, ts, "", LinesOf(data));
  }

  lemma RestoreNone(cfg: Config, ts: Tables, current: string, rest: string)
    requires '\n' !in rest
    ensures RestoreLines(cfg, ts, current, LinesOf(rest)) == Stop(ts) && Ending(Stop(ts)) == Done
  {
    LinesOne(rest);
  }

  /** One line of the rest, then the others. */
  lemma RestoreNext(cfg: Config, ts: Tables, current: string, rest: string)
    requires '\n' in rest
    ensures var i := IndexOf(rest, '\n');
            && i < |rest|
            && var turn := RestoreLine(cfg, ts, current, rest[..i]);
               RestoreLines(cfg, ts, current, LinesOf(rest)) ==
                 if turn.Continue? then RestoreLines(cfg, turn.ts, turn.current, LinesOf(rest[i + 1..])) else turn
  {
    LinesOne(rest);
    hide *;
    var i := IndexOf(rest, '\n');
    RestoreCons(cfg, ts, current, rest[..i], LinesOf(rest[i + 1..]));
  }

  datatype Restoration = Done | Refused | Panicked

  function Ending(turn: Turn): Restoration {
    if turn.Reject? then Refused else if turn.Crash? then Panicked else Done
  }

  class FakeIPTables {
    var tables: Tables
    const isIP: string -> bool

    ghost predicate Valid()
      reads this
    {
      Distinct(tables)
    }

    constructor (isIP: string -> bool)
      ensures this.isIP == isIP && tables == NewTables() && Valid() && Tidy(tables, isIP)
    {
      this.isIP := isIP;
      tables := map[];
      new;
      hide Builtin;
      hide Distinct;
      hide Tidy;
      NothingYet(isIP);
      var names := Enumerate(Builtin().Keys);
      for i := 0 to |names|
        invariant Valid() && Tidy(tables, isIP)
        invariant tables == FirstTables(names[..i])
      {
        var t := names[i];
        assert t in names;
        BuiltinPlain(t);
        var list := SortedList(Builtin()[t]);
        NextTable(names, i, list);
        EnsureAll(t, list);
      }
      AllTables(names);
    }

    method EnsureAll(t: string, list: seq<string>)
      requires Valid() && list != [] && t !in tables
      modifies this
      ensures tables == old(tables)[t := ListedChains(list)] && Valid()
      ensures old(Tidy(tables, isIP)) && '\n' !in t && (forall c | c in list :: PlainName(c)) ==> Tidy(tables, isIP)
    {
      hide Distinct;
      hide Tidy;
      hide PlainName;
      hide WithChain;
      hide ListedChains;
      for j := 0 to |list|
        invariant Valid()
        invariant old(Tidy(tables, isIP)) && '\n' !in t && (forall c | c in list :: PlainName(c)) ==> Tidy(tables, isIP)
        invariant tables == if j == 0 then old(tables) else old(tables)[t := ListedChains(list[..j])]
      {
        NextChain(old(tables), t, list, j);
        var _ := EnsureChain(t, list[j]);
      }
      assert list[..|list|] == list;
    }

    method EnsureChain(t: string, c: string) returns (existed: bool)
      requires Valid()
      modifies this
      ensures tables == WithChain(old(tables), t, c) && existed == HasChain(old(tables), t, c)
      ensures existed <==> t in old(tables) && c in old(tables)[t]
      ensures Changed(old(tables), tables, t, c, Some(if existed then old(tables)[t][c] else []))
      ensures Valid()
      ensures old(Tidy(tables, isIP)) && '\n' !in t && PlainName(c) ==> Tidy(tables, isIP)
    {
      WithChainKeeps(tables, t, c, isIP);
      WithChainChanges(tables, t, c);
      existed := HasChain(tables, t, c);
      if !existed {
        if t !in tables { tables := tables[t := map[]]; }
        tables := tables[t := tables[t][c := []]];
      }
    }

    method FlushChain(t: string, c: string) returns (ok: bool)
      requires Valid()
      modifies this
      ensures ok == HasChain(old(tables), t, c)
      ensures tables == if ok then SetChain(old(tables), t, c, []) else old(tables)
      ensures ok <==> t in old(tables) && c in old(tables)[t]
      ensures if ok then Changed(old(tables), tables, t, c, Some([])) else tables == old(tables)
      ensures Valid()
      ensures old(Tidy(tables, isIP)) ==> Tidy(tables, isIP)
    {
      ok := HasChain(tables, t, c);
      if ok {
        SetChainKeeps(tables, t, c, [], isIP);
        SetChainChanges(tables, t, c, []);
        tables := tables[t := tables[t][c := []]];
      }
    }

    method DeleteChain(t: string, c: string) returns (ok: bool)
      requires Valid()
      modifies this
      ensures ok == HasChain(old(tables), t, c) && tables == WithoutChain(old(tables), t, c)
      ensures ok <==> t in old(tables) && c in old(tables)[t]
      ensures if ok then Changed(old(tables), tables, t, c, None) else tables == old(tables)
      ensures Valid()
      ensures old(Tidy(tables, isIP)) ==> Tidy(tables, isIP)
    {
      WithoutChainKeeps(tables, t, c, isIP);
      WithoutChainChanges(tables, t, c);
      ok := HasChain(tables, t, c);
      if ok { tables := tables[t := tables[t] - {c}]; }
    }

    /** `findRule`; None for its -1. */
    method FindRule(rules: seq<string>, rule: string) returns (at: Option<nat>)
      ensures at.None? ==> rule !in rules
      ensures at.Some? ==> at.value < |rules| && rules[at.value] == rule && rule !in rules[..at.value]
    {
      for i := 0 to |rules|
        invariant rule !in rules[..i]
      {
        if rules[i] == rule { return Some(i); }
        assert rules[..i + 1] == rules[..i] + [rules[i]];
      }
      assert rules[..|rules|] == rules;
      return None;
    }

    /** `ensureRule`. */
    method AddRule(position: Position, t: string, c: string, rule: string) returns (added: Added)
      requires Valid()
      modifies this
      ensures (tables, added) == WithRule(old(tables), position, t, c, rule, isIP)
      ensures var rules := if t in old(tables) && c in old(tables)[t] then old(tables)[t][c] else [];
              var n := Normalize(rule, isIP);
              && Changed(old(tables), tables, t, c, Some(
                   if n.Normal? && n.rule !in rules && position.Prepend? then [n.rule] + rules
                   else if n.Normal? && n.rule !in rules && position.Append? then rules + [n.rule]
                   else rules))
              && (added.Existed? <==> n.Normal? && n.rule in rules)
              && (added.Added? <==> n.Normal? && n.rule !in rules && !position.OtherPosition?)
              && (added.Crashed? <==> n.Panic?)
      ensures Valid()
      ensures LooksRight(isIP) && SpacesOnly(rule) && old(Tidy(tables, isIP)) && '\n' !in t && PlainName(c) ==>
              Tidy(tables, isIP)
    {
      WithRuleKeeps(tables, position, t, c, rule, isIP);
      WithRuleChanges(tables, position, t, c, rule, isIP);
      hide Changed;
      WithChainKeeps(tables, t, c, isIP);
      ghost var made := WithChain(tables, t, c);
      hide Distinct;
      hide Tidy;
      hide Normalize;
      var _ := EnsureChain(t, c);
      var n := NormalizeRule(rule, isIP);
      match n
      case BadQuotes => added := Failed;
      case Panic => added := Crashed;
      case Normal(text) =>
        var rules := tables[t][c];
        var at := FindRule(rules, text);
        if at.Some? { return Existed; }
        match position
        case Prepend => tables := tables[t := tables[t][c := [text] + rules]]; added := Added.Added;
        case Append => tables := tables[t := tables[t][c := rules + [text]]]; added := Added.Added;
        case OtherPosition => added := Failed;
    }

    method EnsureRule(position: Position, t: string, c: string, args: seq<string>) returns (added: Added)
      requires Valid()
      modifies this
      ensures (tables, added) == WithRule(old(tables), position, t, c, RuleText(args), isIP)
      ensures var rules := if t in old(tables) && c in old(tables)[t] then old(tables)[t][c] else [];
              var n := Normalize(RuleText(args), isIP);
              && Changed(old(tables), tables, t, c, Some(
                   if n.Normal? && n.rule !in rules && position.Prepend? then [n.rule] + rules
                   else if n.Normal? && n.rule !in rules && position.Append? then rules + [n.rule]
                   else rules))
              && (added.Existed? <==> n.Normal? && n.rule in rules)
              && (added.Added? <==> n.Normal? && n.rule !in rules && !position.OtherPosition?)
              && (added.Crashed? <==> n.Panic?)
      ensures Valid()
      ensures LooksRight(isIP) && SpacesOnly(RuleText(args)) && old(Tidy(tables, isIP)) &&
              '\n' !in t && PlainName(c) ==>
                Tidy(tables, isIP)
    {
      hide Distinct;
      hide Tidy;
      hide WithRule;
      hide Changed;
      hide Normalize;
      var quoted: seq<string> := [];
      for i := 0 to |args|
        invariant |quoted| == i && forall k | 0 <= k < i :: quoted[k] == Quote(args[k])
      {
        var arg := args[i];
        if ' ' in arg { arg := "\"" + arg + "\""; }
        quoted := quoted + [arg];
      }
      assert quoted == QuoteAll(args);
      added := AddRule(position, t, c, Spaced(quoted));
    }

    method DeleteRule(t: string, c: string, args: seq<string>)
      requires Valid()
      modifies this
      ensures tables == WithoutRule(old(tables), t, c, Spaced(args))
      ensures !(t in old(tables) && c in old(tables)[t] && Spaced(args) in old(tables)[t][c]) ==> tables == old(tables)
      ensures t in old(tables) && c in old(tables)[t] ==> forall i | 0 <= i < |old(tables)[t][c]| &&
                  old(tables)[t][c][i] == Spaced(args) && Spaced(args) !in old(tables)[t][c][..i] ::
                Changed(old(tables), tables, t, c, Some(old(tables)[t][c][..i] + old(tables)[t][c][i + 1..]))
      ensures Valid()
      ensures old(Tidy(tables, isIP)) ==> Tidy(tables, isIP)
    {
      var rule := Spaced(args);
      WithoutRuleKeeps(tables, t, c, rule, isIP);
      WithoutRuleChanges(tables, t, c, rule);
      hide Changed;
      hide Distinct;
      hide Tidy;
      if HasChain(tables, t, c) {
        var rules := tables[t][c];
        var at := FindRule(rules, rule);
        if at.None? {
          assert rules[..|rules|] == rules;
          DroppedAt(rules, rule, |rules|);
          assert tables[t][c := rules] == tables[t];
          return;
        }
        DroppedAt(rules, rule, at.value);
        tables := tables[t := tables[t][c := rules[..at.value] + rules[at.value + 1..]]];
      }
    }

    method SaveInto(t: string, buffer: string) returns (ok: bool, buffer': string)
      ensures ok == (t in tables)
      ensures buffer' == if ok then buffer + SaveText(t, tables[t]) else buffer
    {
      if t !in tables { return false, buffer; }
      var names := SortedList(tables[t].Keys);
      assert names == Names(tables[t]);
      var heads, rules := SaveChains(names, tables[t]);
      hide *;
      Gather(buffer, "*" + t + "\n", heads, rules, "COMMIT\n");
      SaveTextIs(t, tables[t]);
      ok := true;
      buffer' := buffer + ("*" + t + "\n");
      buffer' := buffer' + heads;
      buffer' := buffer' + rules;
      buffer' := buffer' + "COMMIT\n";
    }

    /** Lines 290-305. */
    method RestoreChain(cfg: Config, current: string, line: string)
      requires Valid() && cfg.isIP == isIP && |line| >= 1
      modifies this
      ensures ChainTurn(cfg, old(tables), current, line) == Continue(tables, current)
      ensures Valid()
    {
      hide Distinct;
      hide Tidy;
      hide Contains;
      hide Split;
      hide SetChain;
      hide WithChain;
      hide WithoutChain;
      var c := Split(line[1..], ' ')[0];
      if cfg.flush && HasChain(tables, current, c) {
        var _ := DeleteChain(current, c);
      } else {
        Untouched(tables, current, c);
      }
      ghost var flushed := tables;
      HasMade(flushed, current, c);
      var _ := EnsureChain(current, c);
      if cfg.Empties(current, c) {
        var _ := FlushChain(current, c);
      }
    }

    /** Lines 306-327. */
    method RestoreRule(cfg: Config, current: string, line: string, position: Position) returns (turn: Turn)
      requires Valid() && cfg.isIP == isIP && |line| >= 2
      modifies this
      ensures turn == RuleTurn(cfg, old(tables), current, line, position) && turn.ts == tables
      ensures Valid()
    {
      hide Distinct;
      hide Tidy;
      hide Split;
      hide WithRule;
      var parts := Split(line, ' ');
      if |parts| < 3 { return Reject(tables); }
      var prefix := line[..2] + " " + parts[1] + " ";
      var rule := if prefix <= line then line[|prefix|..] else line;
      var added := AddRule(position, current, parts[1], rule);
      turn := AfterRule((tables, added), current);
    }

    /** One pass of the loop of lines 273-343. */
    method RestoreOne(cfg: Config, before: string, line: string) returns (turn: Turn)
      requires Valid() && cfg.isIP == isIP
      modifies this
      ensures turn == RestoreLine(cfg, old(tables), before, line) && turn.ts == tables
      ensures Valid()
    {
      hide Distinct;
      hide Tidy;
      hide Split;
      hide ChainTurn;
      hide RuleTurn;
      hide WithoutChain;
      if "#" <= line { return Continue(tables, before); }
      var current := if "*" <= line then line[1..] else before;
      if current == "" || (cfg.only != "" && cfg.only != current) { return Continue(tables, current); }
      if ":" <= line {
        RestoreChain(cfg, current, line);
        turn := Continue(tables, current);
      } else if "-A" <= line {
        turn := RestoreRule(cfg, current, line, Append);
      } else if "-I" <= line {
        turn := RestoreRule(cfg, current, line, Prepend);
      } else if "-X" <= line {
        var parts := Split(line, ' ');
        if |parts| < 2 { return Reject(tables); }
        Untouched(tables, current, parts[1]);
        var ok := DeleteChain(current, parts[1]);
        turn := if ok then Continue(tables, current) else Reject(tables);
      } else if line == "COMMIT" {
        turn := if cfg.only == current then Stop(tables) else Continue(tables, "");
      } else {
        turn := Continue(tables, current);
      }
    }

    /** `restore`; `only` is empty for `RestoreAll`. */
    method Restore(only: string, data: string, flush: bool) returns (r: Restoration)
      requires Valid()
      modifies this
      ensures var turn := RestoreLines(Config(only, flush, data, Builtin(), isIP), old(tables), "", LinesOf(data));
              && tables == turn.ts && r == Ending(turn)
              && (r == Refused <==> turn.Reject?) && (r == Panicked <==> turn.Crash?)
      ensures Valid()
      ensures LooksRight(isIP) && (forall l | l in LinesOf(data) :: SpacesOnly(l)) && old(Tidy(tables, isIP)) ==>
              Tidy(tables, isIP)
    {
      var cfg := Config(only, flush, data, Builtin(), isIP);
      RestoreKeeps(cfg, tables, data);
      hide *;
      ghost var whole := RestoreLines(cfg, tables, "", LinesOf(data));
      var rest, current := data, "";
      while '\n' in rest
        invariant Valid() && whole == RestoreLines(cfg, tables, current, LinesOf(rest))
        decreases |rest|
      {
        var i := IndexOf(rest, '\n');
        RestoreNext(cfg, tables, current, rest);
        var turn := RestoreOne(cfg, current, rest[..i]);
        if !turn.Continue? { return Ending(turn); }
        current := turn.current;
        rest := rest[i + 1..];
      }
      RestoreNone(cfg, tables, current, rest);
      r := Done;
    }
  }
}

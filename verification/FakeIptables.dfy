/**
 The in-memory iptables of `utils/iptables/testing/fake_iptables.go`: chains of normalised
 rules, `SaveInto` and `restore`.
 */
module FakeIptables {
  import opened Strings
  import opened Rules
  import opened SaveFormat

  type Tables = map<string, Chains>

  datatype Position = Prepend | Append | OtherPosition

  // ------------------------------------------------- operations on the tables

  function ChainsOf(ts: Tables, t: string): Chains { if t in ts then ts[t] else map[] }

  predicate HasChain(ts: Tables, t: string, c: string) { t in ts && c in ts[t] }

  function RulesOf(ts: Tables, t: string, c: string): seq<string> { if HasChain(ts, t, c) then ts[t][c] else [] }

  function SetChain(ts: Tables, t: string, c: string, rules: seq<string>): Tables {
    ts[t := ChainsOf(ts, t)[c := rules]]
  }

  /** `ensureChain`. */
  function WithChain(ts: Tables, t: string, c: string): Tables {
    if HasChain(ts, t, c) then ts else SetChain(ts, t, c, [])
  }

  function WithoutChain(ts: Tables, t: string, c: string): Tables {
    if HasChain(ts, t, c) then ts[t := ts[t] - {c}] else ts
  }

  datatype Added = Existed | Added | Failed | Crashed

  /** `ensureRule`: the chain is made first, so it stays even when the rule is rejected. */
  function WithRule(ts: Tables, position: Position, t: string, c: string, rule: string,
                    isIP: string -> bool): (Tables, Added) {
    var made := WithChain(ts, t, c);
    var rules := RulesOf(made, t, c);
    match Normalize(rule, isIP)
    case BadQuotes => (made, Failed)
    case Panic => (made, Crashed)
    case Normal(n) =>
      if n in rules then (made, Existed)
      else match position
        case Prepend => (SetChain(made, t, c, [n] + rules), Added.Added)
        case Append => (SetChain(made, t, c, rules + [n]), Added.Added)
        case OtherPosition => (made, Failed)
  }

  // ------------------------------------------------- restore, line by line

  predicate OccursAt(text: string, part: string, i: nat) { i + |part| <= |text| && text[i..i + |part|] == part }

  /** `strings.Contains`. */
  predicate Contains(text: string, part: string) { exists i | 0 <= i <= |text| :: OccursAt(text, part, i) }

  datatype Config = Config(only: string, flush: bool, data: string, builtin: map<string, set<string>>,
                           isIP: string -> bool) {
    predicate IsBuiltin(t: string, c: string) { t in builtin && c in builtin[t] }

    /** Line 301: the chain is emptied although the table is not flushed. */
    predicate Empties(t: string, c: string) { !IsBuiltin(t, c) && !Contains(data, "-X " + c) }
  }

  /** What a line leads to: go on in table `current`, or stop, reject or panic. */
  datatype Turn =
    | Continue(ts: Tables, current: string)
    | Stop(ts: Tables)
    | Reject(ts: Tables)
    | Crash(ts: Tables)

  function AfterRule(r: (Tables, Added), current: string): Turn {
    if r.1.Failed? then Reject(r.0) else if r.1.Crashed? then Crash(r.0) else Continue(r.0, current)
  }

  /** Lines 306-316 and 317-327: a rule to append or to insert. */
  function RuleTurn(cfg: Config, ts: Tables, current: string, line: string, position: Position): Turn
    requires |line| >= 2
  {
    var parts := Split(line, ' ');
    if |parts| < 3 then Reject(ts)
    else
      var prefix := line[..2] + " " + parts[1] + " ";
      var rule := if prefix <= line then line[|prefix|..] else line;
      AfterRule(WithRule(ts, position, current, parts[1], rule, cfg.isIP), current)
  }

  /** Lines 290-305. */
  function ChainTurn(cfg: Config, ts: Tables, current: string, line: string): Turn
    requires |line| >= 1
  {
    var c := Split(line[1..], ' ')[0];
    var flushed := if cfg.flush then WithoutChain(ts, current, c) else ts;
    var made := WithChain(flushed, current, c);
    Continue(if cfg.Empties(current, c) then SetChain(made, current, c, []) else made, current)
  }

  /** Lines 278-342, for a line without its newline. */
  function RestoreLine(cfg: Config, ts: Tables, before: string, line: string): Turn {
    if "#" <= line then Continue(ts, before)
    else
      var current := if "*" <= line then line[1..] else before;
      if current == "" || (cfg.only != "" && cfg.only != current) then Continue(ts, current)
      else if ":" <= line then ChainTurn(cfg, ts, current, line)
      else if "-A" <= line then RuleTurn(cfg, ts, current, line, Append)
      else if "-I" <= line then RuleTurn(cfg, ts, current, line, Prepend)
      else if "-X" <= line then
        var parts := Split(line, ' ');
        if |parts| < 2 || !HasChain(ts, current, parts[1]) then Reject(ts)
        else Continue(WithoutChain(ts, current, parts[1]), current)
      else if line == "COMMIT" then
        if cfg.only == current then Stop(ts) else Continue(ts, "")
      else Continue(ts, current)
  }

  function RestoreLines(cfg: Config, ts: Tables, current: string, lines: seq<string>): Turn
    decreases |lines|
  {
    if lines == [] then Stop(ts)
    else
      var turn := RestoreLine(cfg, ts, current, lines[0]);
      if turn.Continue? then RestoreLines(cfg, turn.ts, turn.current, lines[1..]) else turn
  }

  lemma RestoreCons(cfg: Config, ts: Tables, current: string, line: string, rest: seq<string>)
    ensures var turn := RestoreLine(cfg, ts, current, line);
            RestoreLines(cfg, ts, current, [line] + rest) ==
              if turn.Continue? then RestoreLines(cfg, turn.ts, turn.current, rest) else turn
  {
    assert ([line] + rest)[1..] == rest;
  }

  // ------------------------------------------------- what every operation changes

  /** The rules in chain `c` of table `t` are `rules`, None when there is no such chain; all else is as before. */
  ghost predicate Changed(before: Tables, after: Tables, t: string, c: string, rules: Option<seq<string>>) {
    && (t in after && c in after[t] <==> rules.Some?)
    && (rules.Some? ==> after[t][c] == rules.value)
    && (t in before ==> t in after)
    && (forall t' | t' != t :: t' in after <==> t' in before)
    && (t !in before && t in after ==> after[t].Keys <= {c})
    && forall t', c' | t' in before && t' in after && !(t' == t && c' == c) ::
      (c' in after[t'] <==> c' in before[t']) && (c' in after[t'] ==> after[t'][c'] == before[t'][c'])
  }

  /** What an operation does with the chain's rules, where `had` says that there was one. */
  ghost function Before(ts: Tables, t: string, c: string): Option<seq<string>> {
    if t in ts && c in ts[t] then Some(ts[t][c]) else None
  }

  lemma Unchanged(ts: Tables, t: string, c: string)
    ensures Changed(ts, ts, t, c, Before(ts, t, c))
  {
  }

  lemma SetChainChanges(ts: Tables, t: string, c: string, rules: seq<string>)
    ensures Changed(ts, SetChain(ts, t, c, rules), t, c, Some(rules))
  {
  }

  lemma WithChainChanges(ts: Tables, t: string, c: string)
    ensures Changed(ts, WithChain(ts, t, c), t, c, if Before(ts, t, c).Some? then Before(ts, t, c) else Some([]))
  {
    Unchanged(ts, t, c);
    SetChainChanges(ts, t, c, []);
    hide SetChain;
    hide Changed;
  }

  lemma WithoutChainChanges(ts: Tables, t: string, c: string)
    ensures Changed(ts, WithoutChain(ts, t, c), t, c, None)
  {
  }

  lemma ChangedTwice(a: Tables, b: Tables, d: Tables, t: string, c: string, x: Option<seq<string>>,
                     y: Option<seq<string>>)
    requires Changed(a, b, t, c, x) && Changed(b, d, t, c, y)
    ensures Changed(a, d, t, c, y)
  {
    forall t', c' | t' in a && t' in d && !(t' == t && c' == c)
      ensures (c' in d[t'] <==> c' in a[t']) && (c' in d[t'] ==> d[t'][c'] == a[t'][c'])
    {
      assert t' in b;
    }
  }

  /** Where a rule goes: to the front or to the back, unless it is there or refused. */
  ghost function Placed(rules: seq<string>, position: Position, n: Outcome): seq<string> {
    if n.Normal? && n.rule !in rules && position.Prepend? then [n.rule] + rules
    else if n.Normal? && n.rule !in rules && position.Append? then rules + [n.rule]
    else rules
  }

  lemma WithRuleChanges(ts: Tables, position: Position, t: string, c: string, rule: string, isIP: string -> bool)
    ensures var rules := if t in ts && c in ts[t] then ts[t][c] else [];
            var (after, added) := WithRule(ts, position, t, c, rule, isIP);
            var n := Normalize(rule, isIP);
            && Changed(ts, after, t, c, Some(Placed(rules, position, n)))
            && (added.Existed? <==> n.Normal? && n.rule in rules)
            && (added.Added? <==> n.Normal? && n.rule !in rules && !position.OtherPosition?)
            && (added.Crashed? <==> n.Panic?)
  {
    hide Normalize;
    WithChainChanges(ts, t, c);
    var made := WithChain(ts, t, c);
    var rules := if t in ts && c in ts[t] then ts[t][c] else [];
    assert RulesOf(made, t, c) == rules;
    var n := Normalize(rule, isIP);
    if n.Normal? && n.rule !in rules && !position.OtherPosition? {
      var placed := Placed(rules, position, n);
      SetChainChanges(made, t, c, placed);
      ChangedTwice(ts, made, SetChain(made, t, c, placed), t, c, Some(rules), Some(placed));
    }
  }

  // ------------------------------------------------- what every operation keeps

  /** Each chain holds distinct rules. */
  ghost predicate Distinct(ts: Tables) {
    forall t, c | HasChain(ts, t, c) :: NoDuplicates(ts[t][c])
  }

  /** A chain name fits in its field of a line. */
  predicate PlainName(c: string) { ' ' !in c && '\n' !in c }

  ghost predicate TidyChain(c: string, rules: seq<string>, isIP: string -> bool) {
    PlainName(c) && forall r | r in rules :: Stored(r, isIP)
  }

  /** Names fit in their lines, and the normaliser leaves every rule alone. */
  ghost predicate Tidy(ts: Tables, isIP: string -> bool) {
    (forall t | t in ts :: '\n' !in t) && forall t, c | HasChain(ts, t, c) :: TidyChain(c, ts[t][c], isIP)
  }

  lemma SetChainElsewhere(ts: Tables, t: string, c: string, rules: seq<string>, t': string, c': string)
    ensures HasChain(SetChain(ts, t, c, rules), t', c') <==> (t' == t && c' == c) || HasChain(ts, t', c')
    ensures HasChain(SetChain(ts, t, c, rules), t', c') ==>
              SetChain(ts, t, c, rules)[t'][c'] == if t' == t && c' == c then rules else ts[t'][c']
  {
  }

  lemma SetChainKeeps(ts: Tables, t: string, c: string, rules: seq<string>, isIP: string -> bool)
    requires Distinct(ts) && NoDuplicates(rules)
    ensures Distinct(SetChain(ts, t, c, rules))
    ensures Tidy(ts, isIP) && '\n' !in t && TidyChain(c, rules, isIP) ==> Tidy(SetChain(ts, t, c, rules), isIP)
  {
    hide TidyChain;
    hide NoDuplicates;
    forall t', c' | HasChain(SetChain(ts, t, c, rules), t', c')
      ensures NoDuplicates(SetChain(ts, t, c, rules)[t'][c'])
      ensures Tidy(ts, isIP) && TidyChain(c, rules, isIP) ==> TidyChain(c', SetChain(ts, t, c, rules)[t'][c'], isIP)
    {
      SetChainElsewhere(ts, t, c, rules, t', c');
    }
  }

  lemma WithChainKeeps(ts: Tables, t: string, c: string, isIP: string -> bool)
    requires Distinct(ts)
    ensures Distinct(WithChain(ts, t, c)) && HasChain(WithChain(ts, t, c), t, c)
    ensures Tidy(ts, isIP) && '\n' !in t && PlainName(c) ==> Tidy(WithChain(ts, t, c), isIP)
  {
    SetChainKeeps(ts, t, c, [], isIP);
    hide Distinct;
    hide Tidy;
  }

  lemma WithoutChainKeeps(ts: Tables, t: string, c: string, isIP: string -> bool)
    requires Distinct(ts)
    ensures Distinct(WithoutChain(ts, t, c))
    ensures Tidy(ts, isIP) ==> Tidy(WithoutChain(ts, t, c), isIP)
  {
    hide TidyChain;
    hide NoDuplicates;
    forall t', c' | HasChain(WithoutChain(ts, t, c), t', c')
      ensures HasChain(ts, t', c') && WithoutChain(ts, t, c)[t'][c'] == ts[t'][c']
    {
    }
  }

  lemma RulesOfKept(ts: Tables, t: string, c: string, isIP: string -> bool)
    requires Distinct(ts)
    ensures NoDuplicates(RulesOf(ts, t, c))
    ensures Tidy(ts, isIP) ==> forall r | r in RulesOf(ts, t, c) :: Stored(r, isIP)
  {
    hide Stored;
  }

  /** Adding a rule keeps chains distinct, and tidy when the rule's only white space is the space. */
  lemma WithRuleKeeps(ts: Tables, position: Position, t: string, c: string, rule: string, isIP: string -> bool)
    requires Distinct(ts)
    ensures Distinct(WithRule(ts, position, t, c, rule, isIP).0)
    ensures LooksRight(isIP) && SpacesOnly(rule) && Tidy(ts, isIP) && '\n' !in t && PlainName(c) ==>
              Tidy(WithRule(ts, position, t, c, rule, isIP).0, isIP)
  {
    hide Stored;
    hide Normalize;
    hide Distinct;
    hide Tidy;
    hide PlainName;
    hide SetChain;
    hide WithChain;
    hide LooksRight;
    hide SpacesOnly;
    WithChainKeeps(ts, t, c, isIP);
    var made := WithChain(ts, t, c);
    var rules := RulesOf(made, t, c);
    RulesOfKept(made, t, c, isIP);
    if Normalize(rule, isIP).Normal? {
      var n := Normalize(rule, isIP).rule;
      if LooksRight(isIP) && SpacesOnly(rule) { NormalizeIdempotent(rule, isIP); }
      if n !in rules {
        SetChainKeeps(made, t, c, [n] + rules, isIP);
        SetChainKeeps(made, t, c, rules + [n], isIP);
      }
    }
  }

  lemma SpacesOnlyPart(part: string, whole: string)
    requires SpacesOnly(whole) && forall x | x in part :: x in whole
    ensures SpacesOnly(part) && '\n' !in part
  {
    assert IsWhite('\n');
  }

  /** Every field of a line is free of the separator and made of the line's characters. */
  lemma {:induction false} FieldPlain(line: string, k: nat)
    requires SpacesOnly(line) && k < |Split(line, ' ')|
    ensures PlainName(Split(line, ' ')[k])
  {
    hide SpacesOnly;
    SplitFreeOf(line, ' ');
    SplitMembers(line, ' ', k);
    SpacesOnlyPart(Split(line, ' ')[k], line);
    assert Split(line, ' ')[k] in Split(line, ' ');
  }

  lemma {:induction false} SplitMembers(s: string, sep: char, k: nat)
    requires k < |Split(s, sep)|
    ensures forall x | x in Split(s, sep)[k] :: x in s
    decreases |s|
  {
    var i := IndexOf(s, sep);
    if i < |s| && k > 0 {
      SplitMembers(s[i + 1..], sep, k - 1);
    }
  }

  ghost predicate Reads(line: string, current: string, isIP: string -> bool) {
    LooksRight(isIP) && SpacesOnly(line) && '\n' !in current
  }

  lemma RuleTurnKeeps(cfg: Config, ts: Tables, current: string, line: string, position: Position)
    requires Distinct(ts) && |line| >= 2
    ensures Distinct(RuleTurn(cfg, ts, current, line, position).ts)
    ensures Reads(line, current, cfg.isIP) && Tidy(ts, cfg.isIP) ==>
            Tidy(RuleTurn(cfg, ts, current, line, position).ts, cfg.isIP)
  {
    hide Distinct;
    hide Tidy;
    hide WithRule;
    hide Split;
    hide LooksRight;
    hide SpacesOnly;
    hide PlainName;
    var parts := Split(line, ' ');
    if |parts| >= 3 {
      var prefix := line[..2] + " " + parts[1] + " ";
      var rule := if prefix <= line then line[|prefix|..] else line;
      WithRuleKeeps(ts, position, current, parts[1], rule, cfg.isIP);
      if SpacesOnly(line) {
        FieldPlain(line, 1);
        SpacesOnlyPart(rule, line);
      }
    }
  }

  lemma ChainTurnKeeps(cfg: Config, ts: Tables, current: string, line: string)
    requires Distinct(ts) && |line| >= 1
    ensures Distinct(ChainTurn(cfg, ts, current, line).ts)
    ensures Reads(line, current, cfg.isIP) && Tidy(ts, cfg.isIP) ==>
            Tidy(ChainTurn(cfg, ts, current, line).ts, cfg.isIP)
  {
    hide Distinct;
    hide Tidy;
    hide Split;
    hide LooksRight;
    hide SpacesOnly;
    hide PlainName;
    hide WithChain;
    hide WithoutChain;
    hide SetChain;
    hide Contains;
    var c := Split(line[1..], ' ')[0];
    if SpacesOnly(line) {
      SpacesOnlyPart(line[1..], line);
      FieldPlain(line[1..], 0);
    }
    WithoutChainKeeps(ts, current, c, cfg.isIP);
    var flushed := if cfg.flush then WithoutChain(ts, current, c) else ts;
    WithChainKeeps(flushed, current, c, cfg.isIP);
    SetChainKeeps(WithChain(flushed, current, c), current, c, [], cfg.isIP);
  }

  lemma RestoreLineKeeps(cfg: Config, ts: Tables, before: string, line: string)
    requires Distinct(ts)
    ensures Distinct(RestoreLine(cfg, ts, before, line).ts)
    ensures Reads(line, before, cfg.isIP) && Tidy(ts, cfg.isIP) ==>
              var turn := RestoreLine(cfg, ts, before, line);
              Tidy(turn.ts, cfg.isIP) && (turn.Continue? ==> '\n' !in turn.current)
  {
    hide Distinct;
    hide Tidy;
    hide Split;
    hide RuleTurn;
    hide ChainTurn;
    hide LooksRight;
    hide SpacesOnly;
    hide WithoutChain;
    var current := if "*" <= line then line[1..] else before;
    if SpacesOnly(line) {
      SpacesOnlyPart(line, line);
    }
    if ":" <= line { ChainTurnKeeps(cfg, ts, current, line); ChainTurnContinues(cfg, ts, current, line); }
    if "-A" <= line {
      RuleTurnKeeps(cfg, ts, current, line, Append);
      RuleTurnContinues(cfg, ts, current, line, Append);
    }
    if "-I" <= line {
      RuleTurnKeeps(cfg, ts, current, line, Prepend);
      RuleTurnContinues(cfg, ts, current, line, Prepend);
    }
    var parts := Split(line, ' ');
    if |parts| >= 2 { WithoutChainKeeps(ts, current, parts[1], cfg.isIP); }
  }

  lemma ChainTurnContinues(cfg: Config, ts: Tables, current: string, line: string)
    requires |line| >= 1
    ensures ChainTurn(cfg, ts, current, line).Continue? && ChainTurn(cfg, ts, current, line).current == current
  {
  }

  lemma RuleTurnContinues(cfg: Config, ts: Tables, current: string, line: string, position: Position)
    requires |line| >= 2
    ensures RuleTurn(cfg, ts, current, line, position).Continue? ==>
            RuleTurn(cfg, ts, current, line, position).current == current
  {
    hide WithRule;
    hide Split;
  }

  /** Whatever is restored, and however it ends, chains stay distinct; and tidy, if the text has no odd white space. */
  lemma {:induction false} RestoreLinesKeeps(cfg: Config, ts: Tables, current: string, lines: seq<string>)
    requires Distinct(ts)
    ensures Distinct(RestoreLines(cfg, ts, current, lines).ts)
    ensures Tidy(ts, cfg.isIP) && (forall l | l in lines :: Reads(l, current, cfg.isIP)) ==>
              Tidy(RestoreLines(cfg, ts, current, lines).ts, cfg.isIP)
    decreases |lines|
  {
    hide Distinct;
    hide Tidy;
    hide RestoreLine;
    hide LooksRight;
    hide SpacesOnly;
    if lines != [] {
      RestoreLineKeeps(cfg, ts, current, lines[0]);
      var turn := RestoreLine(cfg, ts, current, lines[0]);
      if turn.Continue? {
        RestoreLinesKeeps(cfg, turn.ts, turn.current, lines[1..]);
        assert lines[0] in lines && forall l | l in lines[1..] :: l in lines;
      }
    }
  }
}

/**
 What each kind of line does in `restore` of `utils/iptables/testing/fake_iptables.go`, read off the
 line's own fields.
 */
module LineKinds {
  import opened Strings
  import opened Rules
  import opened SaveFormat
  import opened FakeIptables

  /** Lines are obeyed in this table. */
  ghost predicate Obeyed(cfg: Config, t: string) { t != "" && (cfg.only == "" || cfg.only == t) }

  /** The text deletes the chain in some later or earlier line, as far as the code can tell. */
  ghost predicate Mentions(data: string, c: string) {
    exists i: nat :: MentionedAt(data, c, i)
  }

  predicate MentionedAt(data: string, c: string, i: nat) {
    i + 3 + |c| <= |data| && data[i..i + 3 + |c|] == "-X " + c
  }

  lemma MentionsIs(data: string, c: string)
    ensures Mentions(data, c) <==> Contains(data, "-X " + c)
  {
    var part := "-X " + c;
    if Mentions(data, c) {
      var i: nat :| MentionedAt(data, c, i);
      assert OccursAt(data, part, i);
    }
    if Contains(data, part) {
      var i :| 0 <= i <= |data| && OccursAt(data, part, i);
      assert MentionedAt(data, c, i);
    }
  }

  lemma FirstField(a: string, rest: string)
    requires ' ' !in a
    ensures Split(a, ' ') == [a] && Split(a + " " + rest, ' ') == [a] + Split(rest, ' ')
  {
    SplitNone(a, ' ');
    SplitFirst(a, rest, ' ');
  }

  lemma Prefixes(line: string)
    requires |line| >= 2
    ensures ("#" <= line <==> line[0] == '#') && ("*" <= line <==> line[0] == '*') && (":" <= line <==> line[0] == ':')
    ensures ("-A" <= line <==> line[..2] == "-A") && ("-I" <= line <==> line[..2] == "-I")
    ensures ("-X" <= line <==> line[..2] == "-X")
    ensures line[..2] == "-A" || line[..2] == "-I" || line[..2] == "-X" ==> line[0] == '-'
    ensures !(line[..2] == "-A" && line[..2] == "-I") && !(line[..2] == "-A" && line[..2] == "-X")
    ensures !(line[..2] == "-I" && line[..2] == "-X")
  {
    assert line[..2][0] == line[0] && line[..2][1] == line[1];
    assert "-A"[1] == 'A' && "-I"[1] == 'I' && "-X"[1] == 'X';
  }

  /** The first two characters decide. */
  lemma Dispatch(cfg: Config, ts: Tables, t: string, line: string)
    requires Obeyed(cfg, t) && |line| >= 2
    ensures line[0] == ':' ==> RestoreLine(cfg, ts, t, line) == ChainTurn(cfg, ts, t, line)
    ensures line[..2] == "-A" ==> RestoreLine(cfg, ts, t, line) == RuleTurn(cfg, ts, t, line, Append)
    ensures line[..2] == "-I" ==> RestoreLine(cfg, ts, t, line) == RuleTurn(cfg, ts, t, line, Prepend)
    ensures line[..2] == "-X" ==> RestoreLine(cfg, ts, t, line) ==
                                    var parts := Split(line, ' ');
                                    if |parts| < 2 || !HasChain(ts, t, parts[1]) then Reject(ts)
                                    else Continue(WithoutChain(ts, t, parts[1]), t)
  {
    hide ChainTurn;
    hide RuleTurn;
    hide Split;
    hide WithoutChain;
    hide HasChain;
    Prefixes(line);
  }

  lemma HeadField(c: string, rest: Option<string>)
    requires ' ' !in c
    ensures Split(c + if rest.Some? then " " + rest.value else "", ' ')[0] == c
  {
    hide Split;
    match rest
    case None =>
      FirstField(c, "");
      assert c + "" == c;
    case Some(text) =>
      FirstField(c, text);
      assert c + (" " + text) == c + " " + text;
  }

  /** `*t` selects the table and changes nothing, whatever table was selected. */
  lemma TableLine(cfg: Config, ts: Tables, before: string, t: string)
    ensures RestoreLine(cfg, ts, before, "*" + t) == Continue(ts, t)
  {
    var line := "*" + t;
    assert line[0] == '*' && line[1..] == t;
  }

  /** A comment, a line in a table that is not obeyed, and a line of no known kind do nothing. */
  lemma IdleLine(cfg: Config, ts: Tables, t: string, line: string)
    requires line == "" || line[0] != '*'
    requires line == "" || line[0] == '#' || !Obeyed(cfg, t)
          || (line[0] != ':' && line != "COMMIT" && !(|line| >= 2 && line[0] == '-' && line[1] in "AIX"))
    ensures RestoreLine(cfg, ts, t, line) == Continue(ts, t)
  {
    hide ChainTurn;
    hide RuleTurn;
  }

  /** COMMIT ends the restoration of one table and otherwise leaves no table selected. */
  lemma CommitLine(cfg: Config, ts: Tables, t: string)
    requires Obeyed(cfg, t)
    ensures RestoreLine(cfg, ts, t, "COMMIT") == if cfg.only == t then Stop(ts) else Continue(ts, "")
  {
    hide ChainTurn;
    hide RuleTurn;
    hide Split;
    hide WithoutChain;
    hide HasChain;
    Prefixes("COMMIT");
    assert "COMMIT"[0] == 'C' && "COMMIT"[..2][0] == 'C';
  }

  /**
   `:c`: the chain is there afterwards, and empty when everything is flushed, when it is new, or when it is not
   built in and no `-X c` occurs in the text.
   */
  lemma ChainLine(cfg: Config, ts: Tables, t: string, c: string, rest: Option<string>)
    requires Obeyed(cfg, t) && ' ' !in c
    ensures var turn := RestoreLine(cfg, ts, t, ":" + c + if rest.Some? then " " + rest.value else "");
            var builtin := t in cfg.builtin && c in cfg.builtin[t];
            var keeps := t in ts && c in ts[t] && !cfg.flush && (builtin || Mentions(cfg.data, c));
            && turn.Continue? && turn.current == t
            && Changed(ts, turn.ts, t, c, Some(if keeps then ts[t][c] else []))
  {
    var line := ":" + c + if rest.Some? then " " + rest.value else "";
    assert line[0] == ':';
    HeadField(c, rest);
    assert line[1..] == c + if rest.Some? then " " + rest.value else "";
    assert RestoreLine(cfg, ts, t, line) == ChainTurn(cfg, ts, t, line) by {
      hide ChainTurn;
      assert "#"[0] != ':' && "*"[0] != ':';
    }
    hide RestoreLine;
    hide Split;
    MentionsIs(cfg.data, c);
    hide Mentions;
    hide Contains;
    ChainTurnChanges(cfg, ts, t, c, line);
  }

  lemma ChainTurnChanges(cfg: Config, ts: Tables, t: string, c: string, line: string)
    requires |line| >= 1 && Split(line[1..], ' ')[0] == c
    ensures var turn := ChainTurn(cfg, ts, t, line);
            var keeps := t in ts && c in ts[t] && !cfg.flush && !cfg.Empties(t, c);
            && turn.Continue? && turn.current == t
            && Changed(ts, turn.ts, t, c, Some(if keeps then ts[t][c] else []))
  {
    hide Split;
    hide Contains;
    var flushed := if cfg.flush then WithoutChain(ts, t, c) else ts;
    var x := if cfg.flush then None else Before(ts, t, c);
    Unchanged(ts, t, c);
    WithoutChainChanges(ts, t, c);
    assert Changed(ts, flushed, t, c, x);
    assert Before(flushed, t, c) == x;
    var made := WithChain(flushed, t, c);
    var y := if x.Some? then x else Some([]);
    WithChainChanges(flushed, t, c);
    ChangedTwice(ts, flushed, made, t, c, x, y);
    SetChainChanges(made, t, c, []);
    ChangedTwice(ts, made, SetChain(made, t, c, []), t, c, y, Some([]));
  }

  /**
   `-A c rule` and `-I c rule`: the rule's normal form goes to the back or to the front of the chain, which is made
   if need be, unless it is there. A first field with more in it makes the whole line the rule.
   */
  lemma RuleLine(cfg: Config, ts: Tables, t: string, front: bool, more: string, c: string, rest: string)
    requires Obeyed(cfg, t) && ' ' !in more && ' ' !in c
    ensures var line := (if front then "-I" else "-A") + more + " " + c + " " + rest;
            var turn := RestoreLine(cfg, ts, t, line);
            var rules := if t in ts && c in ts[t] then ts[t][c] else [];
            var n := Normalize(if more == "" then rest else line, cfg.isIP);
            && (turn.Continue? <==> n.Normal?) && (turn.Crash? <==> n.Panic?) && (turn.Reject? <==> n.BadQuotes?)
            && (turn.Continue? ==> turn.current == t)
            && Changed(ts, turn.ts, t, c, Some(if !n.Normal? || n.rule in rules then rules
                                               else if front then [n.rule] + rules else rules + [n.rule]))
  {
    var position := if front then Prepend else Append;
    var line := (if front then "-I" else "-A") + more + " " + c + " " + rest;
    var rule := if more == "" then rest else line;
    RuleLineIs(cfg, ts, t, front, more, c, rest);
    WithRuleChanges(ts, position, t, c, rule, cfg.isIP);
    hide Normalize;
    hide Changed;
    hide RestoreLine;
    hide WithRule;
  }

  lemma RuleLineIs(cfg: Config, ts: Tables, t: string, front: bool, more: string, c: string, rest: string)
    requires Obeyed(cfg, t) && ' ' !in more && ' ' !in c
    ensures var line := (if front then "-I" else "-A") + more + " " + c + " " + rest;
            var position := if front then Prepend else Append;
            RestoreLine(cfg, ts, t, line) ==
              AfterRule(WithRule(ts, position, t, c, if more == "" then rest else line, cfg.isIP), t)
  {
    var line := (if front then "-I" else "-A") + more + " " + c + " " + rest;
    RuleFields(front, more, c, rest);
    RuleOf(front, more, c, rest);
    hide *;
    Dispatch(cfg, ts, t, line);
    RuleTurnIs(cfg, ts, t, line, if front then Prepend else Append);
  }

  lemma StartOf(head: string, c: string, rest: string)
    requires |head| >= 2
    ensures |head + " " + c + " " + rest| >= 2 && (head + " " + c + " " + rest)[..2] == head[..2]
  {
  }

  lemma ThreeFields(a: string, b: string, rest: string)
    requires ' ' !in a && ' ' !in b
    ensures var fields := Split(a + " " + b + " " + rest, ' '); |fields| >= 3 && fields[1] == b
  {
    FirstField(a, b + " " + rest);
    FirstField(b, rest);
    hide Split;
    Regroup(a, " ", b, " ", rest);
  }

  lemma Regroup(a: string, x: string, b: string, y: string, c: string)
    ensures a + x + b + y + c == a + x + (b + y + c)
  {
  }

  lemma RuleFields(front: bool, more: string, c: string, rest: string)
    requires ' ' !in more && ' ' !in c
    ensures var line := (if front then "-I" else "-A") + more + " " + c + " " + rest;
            && line[..2] == (if front then "-I" else "-A")
            && |Split(line, ' ')| >= 3 && Split(line, ' ')[1] == c
  {
    var head := (if front then "-I" else "-A") + more;
    assert ' ' !in head && head[..2] == if front then "-I" else "-A";
    ThreeFields(head, c, rest);
    hide Split;
    StartOf(head, c, rest);
  }

  lemma RuleTurnIs(cfg: Config, ts: Tables, t: string, line: string, position: Position)
    requires |line| >= 2 && |Split(line, ' ')| >= 3
    ensures var c := Split(line, ' ')[1];
            var prefix := line[..2] + " " + c + " ";
            RuleTurn(cfg, ts, t, line, position) ==
              AfterRule(WithRule(ts, position, t, c, if prefix <= line then line[|prefix|..] else line, cfg.isIP), t)
  {
    hide WithRule;
    hide Split;
  }

  lemma RuleOf(front: bool, more: string, c: string, rest: string)
    requires ' ' !in more
    ensures var line := (if front then "-I" else "-A") + more + " " + c + " " + rest;
            var prefix := line[..2] + " " + c + " ";
            (if prefix <= line then line[|prefix|..] else line) == if more == "" then rest else line
  {
    var line := (if front then "-I" else "-A") + more + " " + c + " " + rest;
    var prefix := line[..2] + " " + c + " ";
    if more == "" {
      assert line == prefix + rest;
    } else {
      assert line[2] == more[0] && more[0] in more && prefix[2] == ' ';
    }
  }

  /** A rule line of fewer than three fields is rejected. */
  lemma ShortRuleLine(cfg: Config, ts: Tables, t: string, line: string)
    requires Obeyed(cfg, t) && ("-A" <= line || "-I" <= line) && |Split(line, ' ')| < 3
    ensures RestoreLine(cfg, ts, t, line) == Reject(ts)
  {
    hide Split;
    hide RestoreLine;
    assert line[..2] == "-A" || line[..2] == "-I";
    Dispatch(cfg, ts, t, line);
  }

  /** `-X c` deletes the chain, and is rejected when there is none. */
  lemma DeleteLine(cfg: Config, ts: Tables, t: string, more: string, c: string, rest: Option<string>)
    requires Obeyed(cfg, t) && ' ' !in more && ' ' !in c
    ensures var turn := RestoreLine(cfg, ts, t, "-X" + more + " " + c + if rest.Some? then " " + rest.value else "");
            if t in ts && c in ts[t] then turn.Continue? && turn.current == t && Changed(ts, turn.ts, t, c, None)
            else turn == Reject(ts)
  {
    var tail := c + if rest.Some? then " " + rest.value else "";
    var line := "-X" + more + " " + c + if rest.Some? then " " + rest.value else "";
    assert line == "-X" + more + " " + tail;
    FirstField("-X" + more, tail);
    HeadField(c, rest);
    hide Split;
    hide RestoreLine;
    assert line[..2] == "-X";
    Dispatch(cfg, ts, t, line);
    WithoutChainChanges(ts, t, c);
    hide WithoutChain;
    hide Changed;
  }

  /** `-X` alone, with nothing after it but what is joined to it, is rejected. */
  lemma ShortDeleteLine(cfg: Config, ts: Tables, t: string, more: string)
    requires Obeyed(cfg, t) && ' ' !in more
    ensures RestoreLine(cfg, ts, t, "-X" + more) == Reject(ts)
  {
    var line := "-X" + more;
    FirstField(line, "");
    hide Split;
    hide RestoreLine;
    assert line[..2] == "-X";
    Dispatch(cfg, ts, t, line);
  }
}

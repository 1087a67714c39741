/**
 The iptables-save format line by line: what `SaveInto` of `utils/iptables/testing/fake_iptables.go` writes, and
 what `GetChainLines` of `utils/iptables/save_restore.go` does with each kind of line.
 */
module SavedLines {
  import opened Strings
  import opened Lines
  import opened SaveFormat

  // ------------------------------------------------- what is written

  ghost function Flatten(parts: seq<seq<string>>): seq<string> {
    if parts == [] then [] else parts[0] + Flatten(parts[1..])
  }

  /** One line for each chain. */
  ghost predicate AreHeads(names: seq<string>, heads: seq<string>) {
    |heads| == |names| && forall i | 0 <= i < |names| :: heads[i] == ":" + names[i] + " - [0:0]"
  }

  /** One line for each of the chain's rules, in order. */
  ghost predicate AreRules(c: string, rules: seq<string>, lines: seq<string>) {
    |lines| == |rules| && forall j | 0 <= j < |rules| :: lines[j] == "-A " + c + " " + rules[j]
  }

  ghost predicate AreParts(names: seq<string>, chains: Chains, parts: seq<seq<string>>)
    requires forall c | c in names :: c in chains
  {
    |parts| == |names| && forall i | 0 <= i < |names| :: AreRules(names[i], chains[names[i]], parts[i])
  }

  lemma {:induction false} HeadsAre(names: seq<string>)
    ensures AreHeads(names, ChainLines(names))
  {
    if names != [] { HeadsAre(names[1..]); }
  }

  lemma {:induction false} RulesAre(c: string, rules: seq<string>)
    ensures AreRules(c, rules, RuleLines(c, rules))
  {
    if rules != [] { RulesAre(c, rules[1..]); }
  }

  lemma {:induction false} PartsAre(names: seq<string>, chains: Chains) returns (parts: seq<seq<string>>)
    requires forall c | c in names :: c in chains
    ensures AreParts(names, chains, parts) && AllRuleLines(names, chains) == Flatten(parts)
  {
    parts := [];
    if names != [] {
      var c := names[0];
      RulesAre(c, chains[c]);
      hide AreRules;
      var rest := PartsAre(names[1..], chains);
      parts := [RuleLines(c, chains[c])] + rest;
      assert parts[1..] == rest;
    }
  }

  /**
   A table is saved as its name, a line for each of its chains in the order of their names, the rules of each chain
   in the same order, and COMMIT.
   */
  lemma SavedAs(t: string, chains: Chains)
    returns (names: seq<string>, heads: seq<string>, parts: seq<seq<string>>)
    ensures Sorted(names) && NoDuplicates(names) && forall c :: c in names <==> c in chains
    ensures AreHeads(names, heads) && AreParts(names, chains, parts)
    ensures SaveText(t, chains) == "*" + t + "\n" + Unlines(heads) + Unlines(Flatten(parts)) + "COMMIT\n"
  {
    names := Names(chains);
    NamesSorted(chains);
    heads := ChainLines(names);
    HeadsAre(names);
    parts := PartsAre(names, chains);
    Written(t, names, chains);
    hide *;
  }

  lemma Written(t: string, names: seq<string>, chains: Chains)
    requires forall c | c in names :: c in chains
    ensures Unlines(SaveLines(t, names, chains)) ==
              "*" + t + "\n" + Unlines(ChainLines(names)) + Unlines(AllRuleLines(names, chains)) + "COMMIT\n"
  {
    hide ChainLines;
    hide AllRuleLines;
    var heads, rules := ChainLines(names), AllRuleLines(names, chains);
    UnlinesCons("*" + t, heads + (rules + ["COMMIT"]));
    UnlinesAppend(heads, rules + ["COMMIT"]);
    UnlinesAppend(rules, ["COMMIT"]);
    UnlinesCons("COMMIT", []);
    assert ["COMMIT"] + [] == ["COMMIT"];
    hide *;
    Grouped("*" + t + "\n", Unlines(heads), Unlines(rules), "COMMIT\n");
  }

  lemma Grouped(a: string, b: string, c: string, d: string)
    ensures a + (b + (c + d)) == a + b + c + d
  {
  }

  // ------------------------------------------------- what is read

  /** `text` with spaces around it. */
  ghost predicate Padded(line: string, text: string) {
    && (text == "" || (text[0] != ' ' && text[|text| - 1] != ' '))
    && exists left, right :: AllSpaces(left) && AllSpaces(right) && line == left + text + right
  }

  lemma PaddedTrim(line: string, text: string)
    requires Padded(line, text)
    ensures Trim(line) == text
  {
    var left, right :| AllSpaces(left) && AllSpaces(right) && line == left + text + right;
    TrimUnique(left, text, right);
  }

  /** Reading starts behind the first line of which the table's is the beginning. */
  lemma {:induction false} Started(table: string, before: seq<string>, line: string, text: string, rest: seq<string>)
    requires Padded(line, text) && "*" + table <= text
    requires forall l | l in before :: !("*" + table <= Trim(l))
    ensures SkipTo(before + [line] + rest, "*" + table) == rest
    decreases |before|
  {
    hide Trim;
    if before == [] {
      PaddedTrim(line, text);
      hide Padded;
      assert before + [line] + rest == [line] + rest;
      SkipOne(table, line, rest);
    } else {
      assert before[0] in before && forall l | l in before[1..] :: l in before;
      Started(table, before[1..], line, text, rest);
      hide Padded;
      assert before + [line] + rest == [before[0]] + (before[1..] + [line] + rest);
      SkipOne(table, before[0], before[1..] + [line] + rest);
    }
  }

  lemma {:induction false} NeverStarted(table: string, lines: seq<string>)
    requires forall l | l in lines :: !("*" + table <= Trim(l))
    ensures SkipTo(lines, "*" + table) == []
  {
    hide Trim;
    if lines != [] {
      assert lines[0] in lines && forall l | l in lines[1..] :: l in lines;
      NeverStarted(table, lines[1..]);
    }
  }

  /** COMMIT or the start of another table ends the reading. */
  lemma EndRead(line: string, text: string, rest: seq<string>, found: map<string, string>)
    requires Padded(line, text) && text != "" && ("COMMIT" <= text || text[0] == '*')
    ensures Collect([line] + rest, found) == Some(found)
  {
    PaddedTrim(line, text);
    hide Trim;
    hide Padded;
  }

  /** A chain's line is filed under the chain's name, which ends at the first space. */
  lemma ChainRead(line: string, c: string, more: string, rest: seq<string>, found: map<string, string>)
    requires ' ' !in c && Padded(line, ":" + c + " " + more)
    ensures Collect([line] + rest, found) == Collect(rest, found[c := ":" + c + " " + more])
  {
    var text := ":" + c + " " + more;
    PaddedTrim(line, text);
    hide Trim;
    hide Padded;
    assert text[1 + |c|] == ' ' && text[..1 + |c|] == ":" + c;
    IndexOfUnique(text, ' ', 1 + |c|);
    NotSpecial(text, ':');
    assert ([line] + rest)[1..] == rest;
  }

  /** A chain's line without a space makes the reader panic. */
  lemma BadChainRead(line: string, c: string, rest: seq<string>, found: map<string, string>)
    requires ' ' !in c && c != "" && Padded(line, ":" + c)
    ensures Collect([line] + rest, found) == None
  {
    var text := ":" + c;
    PaddedTrim(line, text);
    hide Trim;
    hide Padded;
    NotSpecial(text, ':');
    assert |text| > 1;
  }

  /** Every other line is passed over: an empty one, a comment, a lone colon, a rule. */
  lemma OtherRead(line: string, text: string, rest: seq<string>, found: map<string, string>)
    requires Padded(line, text) && !("COMMIT" <= text)
    requires text == "" || text == ":" || (text[0] != '*' && text[0] != ':')
    ensures Collect([line] + rest, found) == Collect(rest, found)
  {
    PaddedTrim(line, text);
    hide Trim;
    hide Padded;
    assert ([line] + rest)[1..] == rest;
  }
}
